/**
 * Section 4 of RFC 6902, operation by operation: when `apply_patch` returns 0, what it leaves, and
 * exactly when both are as the RFC prescribes. Two things stand in the way: the last token is
 * un-escaped in place, and an item is detached from an object by its name in whatever case.
 */
module Operations {
  import opened Bytes
  import opened Json
  import opened Pointers
  import opened Decoding
  import opened Locating
  import opened Comparing
  import opened Patching
  import opened PatchMeaning
  import opened OtherMembers
  import Rfc = Rfc6902

  /** A patch object with the given operation and path. */
  predicate IsPatch(patch: Json, op: Str, pointer: Str, cs: bool) {
    Lookup(patch, PATH, cs) == Some(String(pointer)) && DecodeOperation(patch, cs) == Some(op)
  }

  /** The branch of `apply_patch` for each operation, away from the root. */
  lemma Dispatch(t: Json, patch: Json, op: Str, path: Rfc.Path, k: Str, cs: bool)
    requires IsPatch(patch, op, PointerOf(path + [k]), cs)
    ensures var pointer, value, from := PointerOf(path + [k]), Lookup(patch, VALUE, cs), Lookup(patch, FROM, cs);
            && (op == ADD ==> ApplyPatch(t, patch, cs) == if value.None? then Outcome(t, 7) else AddAt(t, pointer, value.value, cs))
            && (op == REMOVE ==> ApplyPatch(t, patch, cs) == RemoveAt(t, pointer, cs))
            && (op == REPLACE ==> ApplyPatch(t, patch, cs) == ReplaceAt(t, pointer, value, cs))
            && (op == MOVE ==> ApplyPatch(t, patch, cs) == MoveTo(t, pointer, from, cs))
            && (op == COPY ==> ApplyPatch(t, patch, cs) == CopyTo(t, pointer, from, cs))
  {
    assert PointerOf(path + [k]) != [];
  }

  // ---- add ----

  /** What the library does for add: the RFC's add where the un-escaped last token points. */
  lemma AddActs(t: Json, patch: Json, path: Rfc.Path, k: Str, cs: bool)
    requires IsPatch(patch, ADD, PointerOf(path + [k]), cs)
    requires Distinct(t, cs) && WellAddressed(Meaning(t, cs), path, k, cs)
    requires Lookup(patch, VALUE, cs).Some? ==> Distinct(Lookup(patch, VALUE, cs).value, cs)
    ensures var x := Lookup(patch, VALUE, cs);
            Yields(ApplyPatch(t, patch, cs),
                   if x.None? then None else Rfc.Apply(Meaning(t, cs), path + [Unescaped(k)], Rfc.Add(Meaning(x.value, cs)), cs), cs)
  {
    hide ApplyPatch, WellAddressed, Distinct;
    Dispatch(t, patch, ADD, path, k, cs);
    var x := Lookup(patch, VALUE, cs);
    if x.Some? { AddMeaning(t, path, k, x.value, cs); }
  }

  /** Un-escaping does no harm to an addition: the name comes out, or both names hold the value already. */
  predicate AddsAsAsked(v: Value, path: Rfc.Path, k: Str, x: Value, cs: bool) {
    Stable(k) || !ObjectAt(v, path, cs) || BothHold(v, path, k, Unescaped(k), x, cs)
  }

  lemma AddsAsRfc(v: Value, path: Rfc.Path, k: Str, x: Value, cs: bool)
    requires WellAddressed(v, path, k, cs)
    ensures Rfc.Apply(v, path + [Unescaped(k)], Rfc.Add(x), cs) == Rfc.Apply(v, path + [k], Rfc.Add(x), cs) <==> AddsAsAsked(v, path, k, x, cs)
  {
    hide BothHold, Unescaped, Stable, Faithful;
    UnescapedFolds(k, cs);
    if ObjectAt(v, path, cs) {
      AdditionsAgree(v, path, k, Unescaped(k), x, cs);
    } else {
      UnescapedStable(k);
      NotObject(v, path, k, Unescaped(k), Rfc.Add(x), cs);
    }
  }

  lemma UnescapedStable(k: Str)
    ensures Unescaped(k) == k <==> Stable(k)
  {
    DecodeExact(k);
  }

  lemma UnescapedFolds(k: Str, cs: bool)
    ensures Fold(Unescaped(k), cs) == Fold(k, cs) <==> Stable(k)
  {
    DecodedFolds(k, cs);
  }

  /** Where no object is, the last token acts as it stands, or nothing can be done. */
  lemma NotObject(v: Value, path: Rfc.Path, k: Str, other: Str, e: Rfc.Edit, cs: bool)
    requires WellAddressed(v, path, k, cs) && !ObjectAt(v, path, cs) && (Stable(k) ==> other == k)
    ensures Rfc.Apply(v, path + [other], e, cs) == Rfc.Apply(v, path + [k], e, cs)
    ensures Rfc.Get(v, path + [other], cs) == Rfc.Get(v, path + [k], cs)
  {
    hide Stable, Faithful;
    if Rfc.Get(v, path, cs).None? {
      MissingParent(v, path, k, e, cs);
      MissingParent(v, path, other, e, cs);
    } else {
      Rfc.ApplyUnder(v, path, [k], e, cs);
      Rfc.ApplyUnder(v, path, [other], e, cs);
      Rfc.GetConcat(v, path, [k], cs);
      Rfc.GetConcat(v, path, [other], cs);
      GetOne(Rfc.Get(v, path, cs).value, k, cs);
      GetOne(Rfc.Get(v, path, cs).value, other, cs);
    }
  }

  /** add (section 4.1): status 0 exactly where the RFC allows it, and then the RFC's result, unless un-escaping spoils the name. */
  lemma AddConforms(t: Json, patch: Json, path: Rfc.Path, k: Str, cs: bool)
    requires IsPatch(patch, ADD, PointerOf(path + [k]), cs)
    requires Distinct(t, cs) && WellAddressed(Meaning(t, cs), path, k, cs)
    requires Lookup(patch, VALUE, cs).Some? ==> Distinct(Lookup(patch, VALUE, cs).value, cs)
    ensures var v, x := Meaning(t, cs), Lookup(patch, VALUE, cs);
            Yields(ApplyPatch(t, patch, cs),
                   if x.None? then None else Rfc.Apply(v, path + [k], Rfc.Add(Meaning(x.value, cs)), cs), cs) <==>
            x.None? || AddsAsAsked(v, path, k, Meaning(x.value, cs), cs)
  {
    hide ApplyPatch, WellAddressed, AddsAsAsked, Distinct, IsPatch;
    AddActs(t, patch, path, k, cs);
    var x := Lookup(patch, VALUE, cs);
    if x.Some? { AddsAsRfc(Meaning(t, cs), path, k, Meaning(x.value, cs), cs); }
  }

  // ---- remove ----

  /** The detach by the un-escaped name, in whatever case, finds what the name finds in the caller's case mode. */
  predicate TakesAsked(t: Json, path: Rfc.Path, k: Str, cs: bool) {
    match Locate(t, PointerOf(path), cs)
    case None => true
    case Some(pos) =>
      match NodeAt(t, pos)
      case Object(ms) => FindKey(ms, Unescaped(k), false) == FindKey(ms, k, cs)
      case _ => true
  }

  /** What is taken is what was asked for, or neither is there. */
  lemma TakenAsAsked(t: Json, path: Rfc.Path, k: Str, cs: bool)
    requires Distinct(t, cs) && WellAddressed(Meaning(t, cs), path, k, cs) && ObjectAt(Meaning(t, cs), path, cs)
    ensures var v, j := Meaning(t, cs), Taken(t, path, k, cs);
            TakesAsked(t, path, k, cs) <==>
              Fold(j, cs) == Fold(k, cs) || (Rfc.Get(v, path + [k], cs).None? && Rfc.Get(v, path + [j], cs).None?)
  {
    hide WellAddressed, Unescaped;
    ParentMeaning(t, path, k, cs);
    var v, j := Meaning(t, cs), Taken(t, path, k, cs);
    var ms := NodeAt(t, Locate(t, PointerOf(path), cs).value).members;
    RemoveDrops(v, path, k, cs);
    RemoveDrops(v, path, j, cs);
    TakenMember(ms, k, Unescaped(k), cs);
  }

  lemma TakenMember(ms: seq<Member<Json>>, k: Str, token: Str, cs: bool)
    requires UniqueKeys(ms, cs)
    ensures var m, j := MeaningMembers(ms, cs), TakenHere(Object(ms), token);
            && (Fold(j, cs) in m <==> FindKey(ms, token, false) < |ms|)
            && (FindKey(ms, token, false) == FindKey(ms, k, cs) <==> Fold(j, cs) == Fold(k, cs) || (Fold(k, cs) !in m && Fold(j, cs) !in m))
  {
    var i, j := FindKey(ms, token, false), TakenHere(Object(ms), token);
    LookupMeaning(ms, k, cs);
    if i < |ms| {
      MemberMeaning(ms, i, cs);
      if Fold(j, cs) == Fold(k, cs) { SameLookup(ms, j, k, cs); }
    } else {
      SameInAnyCase(ms, token, cs);
      LookupMeaning(ms, token, cs);
    }
  }

  lemma {:induction false} SameLookup(ms: seq<Member<Json>>, a: Str, b: Str, cs: bool)
    requires Fold(a, cs) == Fold(b, cs)
    ensures FindKey(ms, a, cs) == FindKey(ms, b, cs)
  {
  }

  /** What the library does for remove: the RFC's remove at the location that the detach empties. */
  lemma RemoveActs(t: Json, patch: Json, path: Rfc.Path, k: Str, cs: bool)
    requires IsPatch(patch, REMOVE, PointerOf(path + [k]), cs)
    requires Distinct(t, cs) && WellAddressed(Meaning(t, cs), path, k, cs)
    ensures Yields(ApplyPatch(t, patch, cs), Rfc.Apply(Meaning(t, cs), path + [Taken(t, path, k, cs)], Rfc.Remove, cs), cs)
  {
    hide ApplyPatch, WellAddressed, Taken, Distinct;
    Dispatch(t, patch, REMOVE, path, k, cs);
    DetachMeaning(t, path, k, cs);
  }

  /** remove (section 4.2) conforms exactly where the two lookups of the name agree. */
  lemma RemoveConforms(t: Json, patch: Json, path: Rfc.Path, k: Str, cs: bool)
    requires IsPatch(patch, REMOVE, PointerOf(path + [k]), cs)
    requires Distinct(t, cs) && WellAddressed(Meaning(t, cs), path, k, cs)
    ensures Yields(ApplyPatch(t, patch, cs), Rfc.Apply(Meaning(t, cs), path + [k], Rfc.Remove, cs), cs) <==> TakesAsked(t, path, k, cs)
  {
    hide ApplyPatch, WellAddressed, Distinct, IsPatch, Taken, TakesAsked;
    RemoveActs(t, patch, path, k, cs);
    var v, j := Meaning(t, cs), Taken(t, path, k, cs);
    if ObjectAt(v, path, cs) {
      TakenAsAsked(t, path, k, cs);
      RemovalsAgree(v, path, k, j, cs);
    } else {
      NothingNamed(t, path, k, cs);
      NotObject(v, path, k, j, Rfc.Remove, cs);
    }
  }

  lemma NothingNamed(t: Json, path: Rfc.Path, k: Str, cs: bool)
    requires Distinct(t, cs) && WellAddressed(Meaning(t, cs), path, k, cs) && !ObjectAt(Meaning(t, cs), path, cs)
    ensures TakesAsked(t, path, k, cs) && (Stable(k) ==> Taken(t, path, k, cs) == k)
  {
    hide WellAddressed, Unescaped, Stable;
    ParentMeaning(t, path, k, cs);
    UnescapedStable(k);
  }

  // ---- replace ----

  /** A removal leaves the tokens of a location what they are. */
  lemma {:induction false} FaithfulAfterRemove(v: Value, path: Rfc.Path, k: Str, j: Str, cs: bool)
    requires Faithful(v, path + [k], cs) && Rfc.Apply(v, path + [j], Rfc.Remove, cs).Some?
    ensures var r := Rfc.Apply(v, path + [j], Rfc.Remove, cs).value;
            && Faithful(r, path + [k], cs) && Rfc.Get(r, path, cs).Some? && Rfc.Get(v, path, cs).Some?
            && (Rfc.Get(r, path, cs).value.VArray? <==> Rfc.Get(v, path, cs).value.VArray?)
            && (Rfc.Get(r, path, cs).value.VObject? <==> Rfc.Get(v, path, cs).value.VObject?)
  {
    assert (path + [j])[1..] == if path == [] then [] else path[1..] + [j];
    assert (path + [k])[1..] == if path == [] then [] else path[1..] + [k];
    if path != [] {
      var c := Rfc.ChildOf(v, path[0], cs).value;
      FaithfulAfterRemove(c, path[1..], k, j, cs);
      Rfc.ChildAfterPut(v, path[0], Rfc.Apply(c, path[1..] + [j], Rfc.Remove, cs).value, cs);
    }
  }

  /** What the library does for replace: it removes as `remove` does, and adds as `add` does. */
  lemma ReplaceActs(t: Json, path: Rfc.Path, k: Str, x: Json, cs: bool)
    requires Distinct(t, cs) && WellAddressed(Meaning(t, cs), path, k, cs) && Distinct(x, cs)
    ensures var rest := Rfc.Apply(Meaning(t, cs), path + [Taken(t, path, k, cs)], Rfc.Remove, cs);
            Yields(ReplaceAt(t, PointerOf(path + [k]), Some(x), cs),
                   if rest.None? then None else Rfc.Apply(rest.value, path + [Unescaped(k)], Rfc.Add(Meaning(x, cs)), cs), cs)
  {
    hide Taken, Detach, AddAt, Distinct, Faithful, Stable, Meaning;
    DetachMeaning(t, path, k, cs);
    var d := Detach(t, PointerOf(path + [k]), cs);
    if d.Some? {
      FaithfulAfterRemove(Meaning(t, cs), path, k, Taken(t, path, k, cs), cs);
      AddMeaning(d.value.rest, path, k, x, cs);
    }
  }

  /**
   * A replacement is as asked: the detach by the un-escaped name, in whatever case, finds what that name
   * finds in the caller's case mode; and the name asked for finds the same, or both hold the value already.
   */
  predicate ReplacesAsAsked(t: Json, path: Rfc.Path, k: Str, x: Value, cs: bool) {
    match Locate(t, PointerOf(path), cs)
    case None => true
    case Some(pos) =>
      match NodeAt(t, pos)
      case Object(ms) =>
        && FindKey(ms, Unescaped(k), false) == FindKey(ms, Unescaped(k), cs)
        && (FindKey(ms, Unescaped(k), cs) == FindKey(ms, k, cs) || BothHold(Meaning(t, cs), path, k, Unescaped(k), x, cs))
      case _ => true
  }

  lemma ReplacesAsRfc(t: Json, path: Rfc.Path, k: Str, x: Value, cs: bool)
    requires Distinct(t, cs) && WellAddressed(Meaning(t, cs), path, k, cs)
    ensures var v := Meaning(t, cs);
            var rest := Rfc.Apply(v, path + [Taken(t, path, k, cs)], Rfc.Remove, cs);
            (if rest.None? then None else Rfc.Apply(rest.value, path + [Unescaped(k)], Rfc.Add(x), cs)) == Rfc.Apply(v, path + [k], Rfc.Replace(x), cs)
            <==> ReplacesAsAsked(t, path, k, x, cs)
  {
    hide WellAddressed, Unescaped, Distinct, Stable, Rfc.Apply, Taken, ReplacesAsAsked;
    var v, j := Meaning(t, cs), Taken(t, path, k, cs);
    if ObjectAt(v, path, cs) {
      ReplacesInObject(t, path, k, x, cs);
    } else {
      ReplacesElsewhere(t, path, k, x, cs);
    }
  }

  lemma ReplacesElsewhere(t: Json, path: Rfc.Path, k: Str, x: Value, cs: bool)
    requires Distinct(t, cs) && WellAddressed(Meaning(t, cs), path, k, cs) && !ObjectAt(Meaning(t, cs), path, cs)
    ensures var v := Meaning(t, cs);
            var rest := Rfc.Apply(v, path + [Taken(t, path, k, cs)], Rfc.Remove, cs);
            (if rest.None? then None else Rfc.Apply(rest.value, path + [Unescaped(k)], Rfc.Add(x), cs)) == Rfc.Apply(v, path + [k], Rfc.Replace(x), cs)
    ensures ReplacesAsAsked(t, path, k, x, cs)
  {
    hide Unescaped, Distinct, Stable, Rfc.Apply;
    var v, j := Meaning(t, cs), Taken(t, path, k, cs);
    ParentMeaning(t, path, k, cs);
    NothingNamed(t, path, k, cs);
    NotObject(v, path, k, j, Rfc.Remove, cs);
    Rfc.RemoveAddReplaces(v, path + [k], x, cs);
    var rest := Rfc.Apply(v, path + [j], Rfc.Remove, cs);
    if rest.Some? {
      OnlyArrays(v, path, j, cs);
      UnescapedStable(k);
    }
  }

  /** A removal from no object is one from an array. */
  lemma OnlyArrays(v: Value, path: Rfc.Path, j: Str, cs: bool)
    requires !ObjectAt(v, path, cs) && Rfc.Apply(v, path + [j], Rfc.Remove, cs).Some?
    ensures Rfc.Get(v, path, cs).Some? && Rfc.Get(v, path, cs).value.VArray?
  {
    if Rfc.Get(v, path, cs).None? {
      MissingParent(v, path, j, Rfc.Remove, cs);
    } else {
      Rfc.ApplyUnder(v, path, [j], Rfc.Remove, cs);
    }
  }

  lemma ReplacesInObject(t: Json, path: Rfc.Path, k: Str, x: Value, cs: bool)
    requires Distinct(t, cs) && WellAddressed(Meaning(t, cs), path, k, cs) && ObjectAt(Meaning(t, cs), path, cs)
    ensures var v := Meaning(t, cs);
            var rest := Rfc.Apply(v, path + [Taken(t, path, k, cs)], Rfc.Remove, cs);
            (if rest.None? then None else Rfc.Apply(rest.value, path + [Unescaped(k)], Rfc.Add(x), cs)) == Rfc.Apply(v, path + [k], Rfc.Replace(x), cs)
            <==> ReplacesAsAsked(t, path, k, x, cs)
  {
    hide WellAddressed, Unescaped, Stable, Rfc.Apply, Dropped, Distinct;
    var v, j, token := Meaning(t, cs), Taken(t, path, k, cs), Unescaped(k);
    ParentMeaning(t, path, k, cs);
    var p := NodeAt(t, Locate(t, PointerOf(path), cs).value);
    DistinctKeys(p, cs);
    TakenMember(p.members, token, token, cs);
    FoundMember(p.members, k, token, cs);
    RemoveDrops(v, path, j, cs);
    RemoveDrops(v, path, k, cs);
    RemoveDrops(v, path, token, cs);
    ReplacePuts(v, path, k, x, cs);
    if Fold(j, cs) in MeaningMembers(p.members, cs) { ReplacementsAgree(v, path, k, j, token, x, cs); }
  }

  /** Two names find the same exactly if they are the same, or neither finds a member. */
  lemma FoundMember(ms: seq<Member<Json>>, a: Str, b: Str, cs: bool)
    ensures var m := MeaningMembers(ms, cs);
            FindKey(ms, a, cs) == FindKey(ms, b, cs) <==> Fold(a, cs) == Fold(b, cs) || (Fold(a, cs) !in m && Fold(b, cs) !in m)
  {
    LookupMeaning(ms, a, cs);
    LookupMeaning(ms, b, cs);
    if Fold(a, cs) == Fold(b, cs) { SameLookup(ms, a, b, cs); }
  }

  lemma DistinctKeys(p: Json, cs: bool)
    requires p.Object? && Distinct(p, cs)
    ensures UniqueKeys(p.members, cs)
  {
  }

  /** replace (section 4.3): the library removes and then adds at the same path. */
  lemma ReplaceConforms(t: Json, patch: Json, path: Rfc.Path, k: Str, cs: bool)
    requires IsPatch(patch, REPLACE, PointerOf(path + [k]), cs)
    requires Distinct(t, cs) && WellAddressed(Meaning(t, cs), path, k, cs)
    requires Lookup(patch, VALUE, cs).Some? ==> Distinct(Lookup(patch, VALUE, cs).value, cs)
    ensures var x := Lookup(patch, VALUE, cs);
            Yields(ApplyPatch(t, patch, cs),
                   if x.None? then None else Rfc.Apply(Meaning(t, cs), path + [k], Rfc.Replace(Meaning(x.value, cs)), cs), cs) <==>
            x.None? || ReplacesAsAsked(t, path, k, Meaning(x.value, cs), cs)
  {
    hide ApplyPatch, WellAddressed, Distinct, ReplacesAsAsked, Taken, Unescaped;
    Dispatch(t, patch, REPLACE, path, k, cs);
    var x := Lookup(patch, VALUE, cs);
    if x.Some? {
      ReplaceActs(t, path, k, x.value, cs);
      ReplacesAsRfc(t, path, k, Meaning(x.value, cs), cs);
    }
  }

  // ---- move ----

  /**
   * What the library does for move: it removes what the detach finds at `from`, and adds it where the
   * un-escaped last token of `path` points, with no look at prefixes.
   */
  lemma MoveIsRemoveThenAdd(t: Json, patch: Json, from: Rfc.Path, j: Str, path: Rfc.Path, k: Str, cs: bool)
    requires IsPatch(patch, MOVE, PointerOf(path + [k]), cs)
    requires Lookup(patch, FROM, cs) == Some(String(PointerOf(from + [j])))
    requires Distinct(t, cs) && WellAddressed(Meaning(t, cs), from, j, cs) && RestAddressed(t, from, j, path, k, cs)
    ensures Yields(ApplyPatch(t, patch, cs),
                   Rfc.RemoveThenAdd(Meaning(t, cs), from + [Taken(t, from, j, cs)], path + [Unescaped(k)], cs), cs)
  {
    Dispatch(t, patch, MOVE, path, k, cs);
    MoveToMeaning(t, from, j, path, k, cs);
  }

  /** The target is well addressed in what the removal leaves. */
  predicate RestAddressed(t: Json, from: Rfc.Path, j: Str, path: Rfc.Path, k: Str, cs: bool) {
    var rest := Rfc.Apply(Meaning(t, cs), from + [Taken(t, from, j, cs)], Rfc.Remove, cs);
    rest.Some? ==> WellAddressed(rest.value, path, k, cs)
  }

  lemma MoveToMeaning(t: Json, from: Rfc.Path, j: Str, path: Rfc.Path, k: Str, cs: bool)
    requires Distinct(t, cs) && WellAddressed(Meaning(t, cs), from, j, cs) && RestAddressed(t, from, j, path, k, cs)
    ensures Yields(MoveTo(t, PointerOf(path + [k]), Some(String(PointerOf(from + [j]))), cs),
                   Rfc.RemoveThenAdd(Meaning(t, cs), from + [Taken(t, from, j, cs)], path + [Unescaped(k)], cs), cs)
  {
    hide Distinct, Meaning, WellAddressed, Taken, Unescaped;
    DetachMeaning(t, from, j, cs);
    Rfc.RemoveExists(Meaning(t, cs), from + [Taken(t, from, j, cs)], cs);
    var d := Detach(t, PointerOf(from + [j]), cs);
    if d.Some? {
      AddMeaning(d.value.rest, path, k, d.value.item, cs);
    }
  }

  /**
   * Whether a move from `from + [j]` to `path + [k]` comes out as asked, when the member `taken` is taken.
   * If it is the one asked for: unless a location is moved into itself, that location is an element of
   * an array, and the element after it, which slides into its place, can take it in. If it is another:
   * where that makes no difference. If moreover un-escaping spoils the name `k`: where that makes none.
   */
  predicate MovesAsAsked(v: Value, from: Rfc.Path, j: Str, taken: Str, path: Rfc.Path, k: Str, cs: bool) {
    if Stable(k) then
      if Fold(taken, cs) == Fold(j, cs) then
        !(Rfc.IntoItself(from + [j], path + [k], cs) && Rfc.NextTakesIn(v, from, j, (path + [k])[|from| + 1..], cs))
      else MovesAlike(v, from, j, taken, path + [k], cs)
    else
      if Fold(taken, cs) == Fold(j, cs) then SpoiltAlike(v, from + [j], path, k, cs)
      else RenamesAlike(v, from, j, taken, path, k, Unescaped(k), cs)
  }

  /** There is nothing to move, or no object to move it to; or the target is not inside it, and both names hold it already. */
  predicate SpoiltAlike(v: Value, from: Rfc.Path, path: Rfc.Path, k: Str, cs: bool)
    requires from != []
  {
    match (Rfc.Get(v, from, cs), Rfc.Apply(v, from, Rfc.Remove, cs))
    case (Some(x), Some(rest)) =>
      !ObjectAt(rest, path, cs) || (!Rfc.IntoItself(from, path + [k], cs) && BothHold(rest, path, k, Unescaped(k), x, cs))
    case (_, _) => true
  }

  lemma SpoiltAsRfc(v: Value, from: Rfc.Path, path: Rfc.Path, k: Str, cs: bool)
    requires from != [] && !Stable(k)
    requires var rest := Rfc.Apply(v, from, Rfc.Remove, cs); rest.Some? ==> WellAddressed(rest.value, path, k, cs)
    ensures Rfc.RemoveThenAdd(v, from, path + [Unescaped(k)], cs) == Rfc.Move(v, from, path + [k], cs) <==> SpoiltAlike(v, from, path, k, cs)
  {
    hide Rfc.Apply, Rfc.Get, Unescaped, BothHold, Rfc.IntoItself, Faithful, Stable;
    var x, rest := Rfc.Get(v, from, cs), Rfc.Apply(v, from, Rfc.Remove, cs);
    if x.Some? && rest.Some? {
      LegalAtObject(rest.value, path, k, x.value, cs);
      LegalAtObject(rest.value, path, Unescaped(k), x.value, cs);
      if ObjectAt(rest.value, path, cs) {
        UnescapedFolds(k, cs);
        AdditionsAgree(rest.value, path, k, Unescaped(k), x.value, cs);
      }
    }
  }

  /** With the name spoilt, and another member taken. */
  lemma RenamesAsRfc(v: Value, from: Rfc.Path, j: Str, taken: Str, path: Rfc.Path, k: Str, cs: bool)
    requires !Stable(k) && Fold(taken, cs) != Fold(j, cs) && !ArrayAt(v, from, cs)
    requires var rest := Rfc.Apply(v, from + [taken], Rfc.Remove, cs); rest.Some? ==> WellAddressed(rest.value, path, k, cs)
    ensures Rfc.RemoveThenAdd(v, from + [taken], path + [Unescaped(k)], cs) == Rfc.Move(v, from + [j], path + [k], cs) <==>
            RenamesAlike(v, from, j, taken, path, k, Unescaped(k), cs)
  {
    hide Rfc.Apply, Rfc.Get, Unescaped, Rfc.IntoItself, Faithful, Stable, RenamesAlike, Fold, Dropped;
    if ObjectAt(v, from, cs) {
      UnescapedFolds(k, cs);
      RemoveDrops(v, from, taken, cs);
      RenamesAgree(v, from, j, taken, path, k, Unescaped(k), cs);
    } else {
      NothingGoes(v, from, taken, path + [Unescaped(k)], cs);
      NothingGoes(v, from, j, path + [k], cs);
      NothingGoes(v, from, taken, path + [k], cs);
      NoneRenamed(v, from, j, taken, path, k, cs);
    }
  }

  lemma NoneRenamed(v: Value, from: Rfc.Path, j: Str, taken: Str, path: Rfc.Path, k: Str, cs: bool)
    requires !Goes(v, from + [j], path + [k], cs) && !Goes(v, from + [taken], path + [k], cs)
    ensures RenamesAlike(v, from, j, taken, path, k, Unescaped(k), cs)
  {
  }

  predicate ArrayAt(v: Value, p: Rfc.Path, cs: bool) {
    Rfc.Get(v, p, cs).Some? && Rfc.Get(v, p, cs).value.VArray?
  }

  lemma MovesAsRfc(v: Value, from: Rfc.Path, j: Str, taken: Str, path: Rfc.Path, cs: bool)
    requires path != [] && (Fold(taken, cs) != Fold(j, cs) ==> !ArrayAt(v, from, cs))
    ensures Rfc.RemoveThenAdd(v, from + [taken], path, cs) == Rfc.Move(v, from + [j], path, cs) <==>
            if Fold(taken, cs) == Fold(j, cs) then !(Rfc.IntoItself(from + [j], path, cs) && Rfc.NextTakesIn(v, from, j, path[|from| + 1..], cs))
            else MovesAlike(v, from, j, taken, path, cs)
  {
    hide Rfc.NextTakesIn, Rfc.Apply, MovesAlike, Rfc.IntoItself, Fold;
    if Fold(taken, cs) == Fold(j, cs) {
      SameMove(v, from, j, taken, path, cs);
      if Rfc.IntoItself(from + [j], path, cs) { Rfc.MoveExact(v, from, j, path, cs); }
    } else if ObjectAt(v, from, cs) {
      MovesAgree(v, from, j, taken, path, cs);
    } else {
      NeitherGoes(v, from, j, taken, path, cs);
    }
  }

  lemma NeitherGoes(v: Value, from: Rfc.Path, j: Str, other: Str, path: Rfc.Path, cs: bool)
    requires path != [] && !ArrayAt(v, from, cs) && !ObjectAt(v, from, cs)
    ensures Rfc.RemoveThenAdd(v, from + [j], path, cs).None? && Rfc.RemoveThenAdd(v, from + [other], path, cs).None?
    ensures MovesAlike(v, from, j, other, path, cs)
  {
    NothingGoes(v, from, j, path, cs);
    NothingGoes(v, from, other, path, cs);
  }

  lemma NothingGoes(v: Value, from: Rfc.Path, j: Str, path: Rfc.Path, cs: bool)
    requires path != [] && !ArrayAt(v, from, cs) && !ObjectAt(v, from, cs)
    ensures Rfc.RemoveThenAdd(v, from + [j], path, cs).None? && !Goes(v, from + [j], path, cs)
  {
    if Rfc.Get(v, from, cs).None? {
      MissingParent(v, from, j, Rfc.Remove, cs);
    } else {
      Rfc.GetConcat(v, from, [j], cs);
      GetOne(Rfc.Get(v, from, cs).value, j, cs);
    }
  }

  lemma SameMove(v: Value, from: Rfc.Path, j: Str, taken: Str, path: Rfc.Path, cs: bool)
    requires path != [] && Fold(taken, cs) == Fold(j, cs)
    ensures Rfc.Apply(v, from + [taken], Rfc.Remove, cs) == Rfc.Apply(v, from + [j], Rfc.Remove, cs)
    ensures Rfc.RemoveThenAdd(v, from + [taken], path, cs) == Rfc.RemoveThenAdd(v, from + [j], path, cs)
  {
    Rfc.PathFolds(v, from + [taken], from + [j], Rfc.Remove, cs);
    GetFolds(v, from, taken, j, cs);
  }

  lemma GetFolds(v: Value, from: Rfc.Path, a: Str, b: Str, cs: bool)
    requires Fold(a, cs) == Fold(b, cs)
    ensures Rfc.Get(v, from + [a], cs) == Rfc.Get(v, from + [b], cs)
  {
    if Rfc.Get(v, from, cs).None? {
      MissingParent(v, from, a, Rfc.Remove, cs);
      MissingParent(v, from, b, Rfc.Remove, cs);
    } else {
      var here := Rfc.Get(v, from, cs).value;
      Rfc.GetConcat(v, from, [a], cs);
      Rfc.GetConcat(v, from, [b], cs);
      GetOne(here, a, cs);
      GetOne(here, b, cs);
      Rfc.TokenFolds(here, a, b, here, Rfc.Remove, cs);
    }
  }

  /** move (section 4.4) */
  lemma MoveConforms(t: Json, patch: Json, from: Rfc.Path, j: Str, path: Rfc.Path, k: Str, cs: bool)
    requires IsPatch(patch, MOVE, PointerOf(path + [k]), cs)
    requires Lookup(patch, FROM, cs) == Some(String(PointerOf(from + [j])))
    requires Distinct(t, cs) && WellAddressed(Meaning(t, cs), from, j, cs) && RestAddressed(t, from, j, path, k, cs)
    ensures Yields(ApplyPatch(t, patch, cs), Rfc.Move(Meaning(t, cs), from + [j], path + [k], cs), cs) <==>
            MovesAsAsked(Meaning(t, cs), from, j, Taken(t, from, j, cs), path, k, cs)
  {
    hide ApplyPatch, WellAddressed, Distinct, IsPatch, Taken, Stable, Unescaped, Rfc.Move, Rfc.RemoveThenAdd, ObjectAt, Rfc.Apply;
    hide Fold, MovesAlike, SpoiltAlike, RenamesAlike;
    MoveIsRemoveThenAdd(t, patch, from, j, path, k, cs);
    TakenOfArray(t, from, j, cs);
    var v, taken := Meaning(t, cs), Taken(t, from, j, cs);
    if Stable(k) {
      UnescapedStable(k);
      MovesAsRfc(v, from, j, taken, path + [k], cs);
    } else if Fold(taken, cs) == Fold(j, cs) {
      SameMove(v, from, j, taken, path + [Unescaped(k)], cs);
      SpoiltAsRfc(v, from + [j], path, k, cs);
    } else {
      RenamesAsRfc(v, from, j, taken, path, k, cs);
    }
  }

  lemma TakenOfArray(t: Json, path: Rfc.Path, k: Str, cs: bool)
    requires Distinct(t, cs) && WellAddressed(Meaning(t, cs), path, k, cs)
    ensures ArrayAt(Meaning(t, cs), path, cs) ==> Taken(t, path, k, cs) == k
  {
    hide WellAddressed, Unescaped;
    ParentMeaning(t, path, k, cs);
  }

  /** Below an object a location that has been removed is gone, so there the library always conforms. */
  lemma NoMoveBelowObject(v: Value, from: Rfc.Path, j: Str, path: Rfc.Path, cs: bool)
    requires Rfc.Get(v, from, cs).Some? && Rfc.Get(v, from, cs).value.VObject? && Rfc.IntoItself(from + [j], path, cs)
    ensures Rfc.RemoveThenAdd(v, from + [j], path, cs).None?
  {
    Rfc.MoveExact(v, from, j, path, cs);
  }

  /** What is off the two locations on which a move acts stays what it is, at the index to which the elements before it have slid. */
  lemma MoveLeavesOthers(t: Json, patch: Json, from: Rfc.Path, j: Str, path: Rfc.Path, k: Str, q: Rfc.Path, cs: bool)
    requires IsPatch(patch, MOVE, PointerOf(path + [k]), cs)
    requires Lookup(patch, FROM, cs) == Some(String(PointerOf(from + [j])))
    requires Distinct(t, cs) && WellAddressed(Meaning(t, cs), from, j, cs) && RestAddressed(t, from, j, path, k, cs)
    requires Rfc.OffMove(Meaning(t, cs), from + [Taken(t, from, j, cs)], path + [Unescaped(k)], q, cs)
    ensures var v, o := Meaning(t, cs), ApplyPatch(t, patch, cs);
            o.Outcome? && o.status == 0 ==>
              Rfc.Get(Meaning(o.doc, cs), Rfc.AfterMove(v, from + [Taken(t, from, j, cs)], path + [Unescaped(k)], q, cs), cs) == Rfc.Get(v, q, cs)
  {
    hide Distinct, Meaning, WellAddressed, Taken, Unescaped, ApplyPatch, Rfc.OffMove, Rfc.AfterMove;
    MoveIsRemoveThenAdd(t, patch, from, j, path, k, cs);
    var f, p := from + [Taken(t, from, j, cs)], path + [Unescaped(k)];
    if Rfc.RemoveThenAdd(Meaning(t, cs), f, p, cs).Some? {
      Rfc.MoveLeaves(Meaning(t, cs), f, p, q, cs);
    }
  }

  /** A patch object that moves one pointer to another. */
  function MovePatch(from: Str, path: Str): Json {
    Object([Member(OP, String(MOVE)), Member(FROM, String(from)), Member(PATH, String(path))])
  }

  lemma MovePatchIs(from: Str, path: Str, cs: bool)
    ensures IsPatch(MovePatch(from, path), MOVE, path, cs) && Lookup(MovePatch(from, path), FROM, cs) == Some(String(from))
  {
    var ms := MovePatch(from, path).members;
    assert |Fold(OP, cs)| == 2;
    assert Fold(FROM, cs)[0] == 102 && Fold(PATH, cs)[0] == 112;
    assert ms[0].key == OP && ms[1].key == FROM && ms[2].key == PATH;
  }

  /** Below an array it may succeed: moving the first of two arrays into itself moves it into the second. */
  lemma MoveIntoItself(cs: bool)
    ensures var patch := MovePatch([SLASH, ZERO], [SLASH, ZERO, SLASH, ZERO]);
            ApplyPatch(Array([Array([]), Array([])]), patch, cs) == Outcome(Array([Array([Array([])])]), 0)
    ensures Rfc.IntoItself([[ZERO]], [[ZERO], [ZERO]], cs)
  {
    hide ApplyPatch, IsPatch, Lookup, PointerOf;
    var t, patch := Array([Array([]), Array([])]), MovePatch([SLASH, ZERO], [SLASH, ZERO, SLASH, ZERO]);
    MovePatchIs([SLASH, ZERO], [SLASH, ZERO, SLASH, ZERO], cs);
    ZeroPointers();
    ZeroMoved(t, patch, cs);
    NestedArrays(ApplyPatch(t, patch, cs).doc, cs);
  }

  /** The names "A", "a" and "b". */
  const UPPER: Str := [65]
  const LOWER: Str := [97]
  const TARGET: Str := [98]

  /** In the case sensitive mode a move may take another member: asked to move "a" to "b", this one moves "A". */
  lemma MoveTakesTwin(x: Json, y: Json)
    ensures var t := Object([Member(UPPER, x), Member(LOWER, y)]);
            ApplyPatch(t, MovePatch([SLASH] + LOWER, [SLASH] + TARGET), true) == Outcome(Object([Member(LOWER, y), Member(TARGET, x)]), 0)
  {
    hide ApplyPatch, IsPatch, Lookup, Detach, AddAt, Unescaped;
    var t, rest := Object([Member(UPPER, x), Member(LOWER, y)]), Object([Member(LOWER, y)]);
    var patch := MovePatch([SLASH] + LOWER, [SLASH] + TARGET);
    PlainPointer(LOWER);
    PlainPointer(TARGET);
    assert [] + [LOWER] == [LOWER] && [] + [TARGET] == [TARGET];
    MovePatchIs([SLASH] + LOWER, [SLASH] + TARGET, true);
    Dispatch(t, patch, MOVE, [], TARGET, true);
    DetachAtParent(t, [], LOWER, true);
    TwinFirst(x, y);
    AddAtParent(rest, [], TARGET, x, true);
    assert rest.members + [Member(TARGET, x)] == [Member(LOWER, y), Member(TARGET, x)];
  }

  lemma PlainPointer(k: Str)
    requires SLASH !in k && TILDE !in k
    ensures PointerOf([k]) == [SLASH] + k && Unescaped(k) == k && PointerOf([]) == []
  {
    EncodePlain(k);
    PlainIsStable(k);
    UnescapedStable(k);
    assert [k][1..] == [];
    assert PointerOf([k]) == [SLASH] + (k + PointerOf([]));
  }

  lemma TwinFirst(x: Json, y: Json)
    ensures DetachHere(Object([Member(UPPER, x), Member(LOWER, y)]), LOWER) == Some(Detached(Object([Member(LOWER, y)]), x))
    ensures FindKey([Member(LOWER, y)], TARGET, true) == 1
  {
    var ms := [Member(UPPER, x), Member(LOWER, y)];
    assert Fold(UPPER, false) == [97] == Fold(LOWER, false);
    assert Fold(ms[0].key, false) == Fold(LOWER, false);
    assert FindKey(ms, LOWER, false) == 0;
    assert Without(ms, 0) == [Member(LOWER, y)];
  }

  lemma NestedArrays(doc: Json, cs: bool)
    requires Meaning(doc, cs) == VArray([VArray([VArray([])])])
    ensures doc == Array([Array([Array([])])])
  {
    var inner := doc.items[0];
    assert Meaning(inner, cs) == VArray([VArray([])]);
    assert Meaning(inner.items[0], cs) == VArray([]);
    assert inner.items[0].items == [] && inner.items == [Array([])] && doc.items == [inner];
  }

  lemma ZeroMoved(t: Json, patch: Json, cs: bool)
    requires t == Array([Array([]), Array([])])
    requires var zero: Str := [ZERO];
             IsPatch(patch, MOVE, PointerOf([zero] + [zero]), cs) && Lookup(patch, FROM, cs) == Some(String(PointerOf([] + [zero])))
    ensures Yields(ApplyPatch(t, patch, cs), Some(VArray([VArray([VArray([])])])), cs)
  {
    hide Rfc.RemoveThenAdd, ApplyPatch, IsPatch, Lookup, PointerOf, WellAddressed, Distinct, Meaning, Taken, Unescaped;
    var zero: Str := [ZERO];
    assert [] + [zero] == [zero] && [zero] + [zero] == [zero, zero];
    ZeroAddressed(cs);
    TwoArrays(cs);
    SlideIntoNext(cs);
    UnescapedStable(zero);
    TakenOfArray(t, [], zero, cs);
    MoveIsRemoveThenAdd(t, patch, [], zero, [zero], zero, cs);
  }

  lemma TwoArrays(cs: bool)
    ensures var t := Array([Array([]), Array([])]); Distinct(t, cs) && Meaning(t, cs) == VArray([VArray([]), VArray([])])
  {
    var empty := Array([]);
    assert Distinct(empty, cs) && Meaning(empty, cs) == VArray([]);
    assert MeaningItems([empty, empty], cs) == [VArray([]), VArray([])];
  }

  lemma SlideIntoNext(cs: bool)
    ensures var v, zero: Str := VArray([VArray([]), VArray([])]), [ZERO];
            Rfc.RemoveThenAdd(v, [zero], [zero, zero], cs) == Some(VArray([VArray([VArray([])])]))
  {
    var zero: Str := [ZERO];
    assert Decimal(0) == zero;
    DecimalRoundTrip(0);
    var empty, v, v' := VArray([]), VArray([VArray([]), VArray([])]), VArray([VArray([])]);
    assert Without(v.items, 0) == [empty];
    assert Inserted([], 0, empty) == [empty];
    assert v'.items[0 := v'] == [v'];
    GetOne(v, zero, cs);
    assert [zero, zero][1..] == [zero];
    assert Rfc.Apply(empty, [zero], Rfc.Add(empty), cs) == Some(v');
    assert Rfc.PutChild(v', zero, v', cs) == VArray([v']);
  }

  lemma ZeroPointers()
    ensures var zero: Str := [ZERO];
            PointerOf([] + [zero]) == [SLASH, ZERO] && PointerOf([zero] + [zero]) == [SLASH, ZERO, SLASH, ZERO]
  {
    var zero: Str := [ZERO];
    EncodePlain(zero);
    assert [] + [zero] == [zero] && [zero][1..] == [] && [zero, zero][1..] == [zero];
    assert PointerOf([zero]) == [SLASH] + (zero + PointerOf([]));
    assert PointerOf([zero] + [zero]) == [SLASH] + (zero + PointerOf([zero]));
  }

  lemma ZeroAddressed(cs: bool)
    ensures var zero: Str, v := [ZERO], VArray([VArray([]), VArray([])]);
            var rest := Rfc.Apply(v, [] + [zero], Rfc.Remove, cs);
            Stable(zero) && WellAddressed(v, [], zero, cs) && (rest.Some? ==> WellAddressed(rest.value, [zero], zero, cs))
  {
    var zero: Str := [ZERO];
    assert Decimal(0) == zero;
    DecimalRoundTrip(0);
  }

  // ---- copy ----

  /** What the library does for copy; `from` may be any location, the whole document included. */
  lemma CopyActs(t: Json, patch: Json, from: Rfc.Path, path: Rfc.Path, k: Str, cs: bool)
    requires IsPatch(patch, COPY, PointerOf(path + [k]), cs)
    requires Lookup(patch, FROM, cs) == Some(String(PointerOf(from)))
    requires Distinct(t, cs) && Faithful(Meaning(t, cs), from, cs) && WellAddressed(Meaning(t, cs), path, k, cs)
    ensures var x := Rfc.Get(Meaning(t, cs), from, cs);
            Yields(ApplyPatch(t, patch, cs),
                   if x.None? then None else Rfc.Apply(Meaning(t, cs), path + [Unescaped(k)], Rfc.Add(x.value), cs), cs)
  {
    hide ApplyPatch, WellAddressed, Distinct, Faithful, Unescaped;
    Dispatch(t, patch, COPY, path, k, cs);
    LocateMeaning(t, from, cs);
    var pos := Locate(t, PointerOf(from), cs);
    if pos.Some? { AddMeaning(t, path, k, NodeAt(t, pos.value), cs); }
  }

  /** copy (section 4.5) */
  lemma CopyConforms(t: Json, patch: Json, from: Rfc.Path, path: Rfc.Path, k: Str, cs: bool)
    requires IsPatch(patch, COPY, PointerOf(path + [k]), cs)
    requires Lookup(patch, FROM, cs) == Some(String(PointerOf(from)))
    requires Distinct(t, cs) && Faithful(Meaning(t, cs), from, cs) && WellAddressed(Meaning(t, cs), path, k, cs)
    ensures var v := Meaning(t, cs);
            var x := Rfc.Get(v, from, cs);
            Yields(ApplyPatch(t, patch, cs), if x.None? then None else Rfc.Apply(v, path + [k], Rfc.Add(x.value), cs), cs) <==>
            x.None? || AddsAsAsked(v, path, k, x.value, cs)
  {
    hide ApplyPatch, WellAddressed, Distinct, Faithful, Unescaped, IsPatch, AddsAsAsked;
    CopyActs(t, patch, from, path, k, cs);
    var x := Rfc.Get(Meaning(t, cs), from, cs);
    if x.Some? { AddsAsRfc(Meaning(t, cs), path, k, x.value, cs); }
  }

  /** What is off the place where a copy is added stays what it is, at the index to which the elements before it have slid. */
  lemma CopyLeavesOthers(t: Json, patch: Json, from: Rfc.Path, path: Rfc.Path, k: Str, q: Rfc.Path, cs: bool)
    requires IsPatch(patch, COPY, PointerOf(path + [k]), cs)
    requires Lookup(patch, FROM, cs) == Some(String(PointerOf(from)))
    requires Distinct(t, cs) && Faithful(Meaning(t, cs), from, cs) && WellAddressed(Meaning(t, cs), path, k, cs)
    requires Rfc.Get(Meaning(t, cs), from, cs).Some?
    requires Rfc.Off(Meaning(t, cs), path + [Unescaped(k)], q, Rfc.Add(Rfc.Get(Meaning(t, cs), from, cs).value), cs)
    ensures var v, o := Meaning(t, cs), ApplyPatch(t, patch, cs);
            o.Outcome? && o.status == 0 ==>
              Rfc.Get(Meaning(o.doc, cs), Rfc.After(v, path + [Unescaped(k)], q, Rfc.Add(Rfc.Get(v, from, cs).value), cs), cs) == Rfc.Get(v, q, cs)
  {
    hide Distinct, Meaning, WellAddressed, Faithful, ApplyPatch, Rfc.After, Rfc.Off, Unescaped;
    CopyActs(t, patch, from, path, k, cs);
    var e, p := Rfc.Add(Rfc.Get(Meaning(t, cs), from, cs).value), path + [Unescaped(k)];
    if Rfc.Apply(Meaning(t, cs), p, e, cs).Some? {
      Rfc.OffUnchanged(Meaning(t, cs), p, q, e, cs);
    }
  }

  // ---- test ----

  /** test (section 4.6): status 0 exactly when the location holds an equal value; the document keeps its meaning. */
  lemma TestConforms(t: Json, patch: Json, path: Rfc.Path, cs: bool)
    requires IsPatch(patch, TEST, PointerOf(path), cs)
    requires Distinct(t, cs) && Faithful(Meaning(t, cs), path, cs)
    requires Lookup(patch, VALUE, cs).Some? && Distinct(Lookup(patch, VALUE, cs).value, cs)
    ensures var o, x := ApplyPatch(t, patch, cs), Lookup(patch, VALUE, cs).value;
            && o.Outcome?
            && (o.status == 0 <==> Rfc.Get(Meaning(t, cs), path, cs) == Some(Meaning(x, cs)))
            && Distinct(o.doc, cs) && Meaning(o.doc, cs) == Meaning(t, cs)
  {
    hide CompareJson, Distinct, Meaning, Faithful, Lookup, Rfc.Get, Locate;
    TestMeaning(t, path, Lookup(patch, VALUE, cs).value, cs);
  }

  lemma TestMeaning(t: Json, path: Rfc.Path, x: Json, cs: bool)
    requires Distinct(t, cs) && Distinct(x, cs) && Faithful(Meaning(t, cs), path, cs)
    ensures var o := TestAt(t, PointerOf(path), Some(x), cs);
            && (o.status == 0 <==> Rfc.Get(Meaning(t, cs), path, cs) == Some(Meaning(x, cs)))
            && Distinct(o.doc, cs) && Meaning(o.doc, cs) == Meaning(t, cs)
  {
    hide CompareJson, Distinct, Meaning, Faithful;
    LocateMeaning(t, path, cs);
    var pos := Locate(t, PointerOf(path), cs);
    if pos.Some? {
      var node := NodeAt(t, pos.value);
      CompareJsonExact(node, x, cs);
      CompareKeepsMeaning(node, x, cs);
      PutMeaning(t, path, CompareJson(node, x, cs).a, cs);
      PutSame(Meaning(t, cs), path, cs);
    }
  }

  lemma {:induction false} PutSame(v: Value, path: Rfc.Path, cs: bool)
    requires Rfc.Get(v, path, cs).Some?
    ensures Rfc.PutPath(v, path, Rfc.Get(v, path, cs).value, cs) == v
  {
    if path != [] {
      PutSame(Rfc.ChildOf(v, path[0], cs).value, path[1..], cs);
    }
  }
}

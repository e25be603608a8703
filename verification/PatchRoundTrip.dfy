/** When a generated patch turns the old tree into the new one: exactly which names allow it. */
module PatchRoundTrip {
  import opened Bytes
  import opened Json
  import opened Sorting
  import opened Pointers
  import opened Decoding
  import opened Locating
  import opened Patching
  import opened PatchMeaning
  import opened Operations
  import opened Diffing
  import opened DiffMeaning

  /** The patch generated from `a` to `b` applies to a copy of `a`, and leaves `b` up to member order. */
  ghost predicate RoundTrips(a: Json, b: Json, cs: bool) {
    var o := ApplyPatches(a, GeneratePatches(a, b, cs), cs);
    o.Outcome? && o.status == 0 && Distinct(o.doc, cs) && Meaning(o.doc, cs) == Meaning(b, cs)
  }

  /** All trees with these names make the round trip. */
  ghost predicate AllRoundTrip(names: iset<Str>, cs: bool) {
    forall a, b | Fit(a, names, cs) && Fit(b, names, cs) :: RoundTrips(a, b, cs)
  }

  lemma RoundTrip(a: Json, b: Json, names: iset<Str>, cs: bool)
    requires AllStable(names) && (cs ==> NoCaseTwins(names))
    requires Fit(a, names, cs) && Fit(b, names, cs)
    ensures RoundTrips(a, b, cs)
  {
    hide AllStable, NoCaseTwins, CreatePatches;
    assert PointerOf([]) == [];
    DiffReaches(a, [], a, b, names, cs);
  }

  // ---- the condition is necessary ----

  lemma SortOne(m: Member<Json>, cs: bool)
    ensures Sort([m], cs) == [m] && Sort<Json>([], cs) == []
  {
  }

  lemma AddToEmpty(k: Str, cs: bool)
    ensures AddAt(Object([]), [SLASH] + Encode(k), Null, cs) == Outcome(Object([Member(DecodeToken(Encode(k)), Null)]), 0)
  {
    var a, path, d := Object([]), [SLASH] + Encode(k), DecodeToken(Encode(k));
    EncodeNoSlash(k);
    CutAt([], Encode(k));
    assert [] + [SLASH] + Encode(k) == path && path[1..] == Encode(k) && path[..0] == [];
    assert Locate(a, path[..0], cs) == Some([]);
    assert AddHere(a, d, Null, cs) == Added(Object([] + [Member(d, Null)]));
    assert [] + [Member(d, Null)] == [Member(d, Null)];
  }

  lemma AddOnePatch(k: Str, cs: bool)
    ensures CreatePatches([], Object([]), Object([Member(k, Null)]), cs) == [ComposePatch(ADD, [], Some(k), Some(Null))]
  {
    SortOne(Member(k, Null), cs);
    assert [Member(k, Null)][1..] == [];
  }

  lemma AddOneApplied(k: Str, cs: bool)
    ensures ApplyAll(Object([]), [ComposePatch(ADD, [], Some(k), Some(Null))], cs) ==
            Outcome(Object([Member(DecodeToken(Encode(k)), Null)]), 0)
  {
    hide AddAt, ComposePatch, ApplyPatch;
    var patch := ComposePatch(ADD, [], Some(k), Some(Null));
    ComposedPatch(ADD, [], Some(k), Some(Null), cs);
    PathOf([], k);
    assert [] + [SLASH] + Encode(k) == [SLASH] + Encode(k) && PointerOf([]) == [];
    Dispatch(Object([]), patch, ADD, [], k, cs);
    AddToEmpty(k, cs);
    ApplySingle(Object([]), patch, cs);
  }

  /** Adding one member to an empty object shows what becomes of its name. */
  lemma NameSurvives(k: Str, names: iset<Str>, cs: bool)
    requires AllRoundTrip(names, cs) && k in names
    ensures Stable(k)
  {
    var a, b := Object([]), Object([Member(k, Null)]);
    assert Fit(a, names, cs) && Fit(b, names, cs);
    assert RoundTrips(a, b, cs);
    AddOnePatch(k, cs);
    AddOneApplied(k, cs);
    var d := DecodedIs(k);
    OneMember(d, cs);
    OneMember(k, cs);
    assert Fold(d, cs) in MeaningMembers(b.members, cs);
    DecodedFolds(k, cs);
  }

  lemma OneMember(k: Str, cs: bool)
    ensures MeaningMembers([Member(k, Null)], cs) == map[Fold(k, cs) := VNull]
  {
  }

  /** Removing one of two names that differ in case only removes the first of them. */
  lemma TwinsCollide(j: Str, k: Str, names: iset<Str>)
    requires AllRoundTrip(names, true) && j in names && k in names && Fold(j, false) == Fold(k, false)
    requires Stable(k)
    ensures j == k
  {
    if j != k {
      var mj, mk := Member(j, Null), Member(k, Null);
      var a, b := Object([mj, mk]), Object([mj]);
      assert Fit(a, names, true) && Fit(b, names, true);
      assert RoundTrips(a, b, true);
      TwinPatch(j, k);
      RemoveTwin(j, k);
      DifferentNames(j, k);
    }
  }

  lemma DifferentNames(j: Str, k: Str)
    requires j != k
    ensures MeaningMembers([Member(j, Null)], true) != MeaningMembers([Member(k, Null)], true)
  {
    OneMember(j, true);
    OneMember(k, true);
    assert k in MeaningMembers([Member(k, Null)], true);
  }

  lemma RemoveTwin(j: Str, k: Str)
    requires Stable(k) && Fold(j, false) == Fold(k, false)
    ensures ApplyAll(Object([Member(j, Null), Member(k, Null)]), [ComposePatch(REMOVE, [], Some(k), None)], true) ==
            Outcome(Object([Member(k, Null)]), 0)
  {
    hide ComposePatch, ApplyPatch, Detach, Stable, Unescaped;
    UnescapedStable(k);
    var a, patch := Object([Member(j, Null), Member(k, Null)]), ComposePatch(REMOVE, [], Some(k), None);
    ComposedPatch(REMOVE, [], Some(k), None, true);
    PathOf([], k);
    assert PointerOf([]) == [] && [] + [k] == [k];
    Dispatch(a, patch, REMOVE, [], k, true);
    DetachAtParent(a, [], k, true);
    assert Without(a.members, 0) == [Member(k, Null)];
    FirstOfName(a.members, k, 0, false);
    ApplySingle(a, patch, true);
  }

  lemma TwinPatch(j: Str, k: Str)
    requires j != k
    ensures CreatePatches([], Object([Member(j, Null), Member(k, Null)]), Object([Member(j, Null)]), true) ==
            [ComposePatch(REMOVE, [], Some(k), None)]
  {
    hide PatchMembers, Sort;
    var mj: Member<Json>, mk: Member<Json> := Member(j, Null), Member(k, Null);
    var a := Object([mj, mk]);
    SortOne(mj, true);
    SortTwins(j, k);
    assert a.members[0].value < a;
    if CompareKeys(mj, mk, true) < 0 {
      WalkSame(a, j, [mk], []);
      WalkGone(a, k, [], []);
    } else {
      CompareAntisymmetric(j, k);
      CompareEqual(j, k);
      WalkGone(a, k, [mj], [mj]);
      WalkSame(a, j, [], []);
    }
    WalkDone(a);
    assert [mj] + [mk] == [mj, mk] && [mk] + [mj] == [mk, mj] && [mj] + [] == [mj] && [mk] + [] == [mk];
    var patch := ComposePatch(REMOVE, [], Some(k), None);
    assert [patch] + [] == [patch];
  }

  lemma SortTwins(j: Str, k: Str)
    requires j != k
    ensures var mj, mk := Member(j, Null), Member(k, Null);
            Sort([mj, mk], true) == if CompareKeys(mj, mk, true) < 0 then [mj, mk] else [mk, mj]
  {
    var mj: Member<Json>, mk: Member<Json> := Member(j, Null), Member(k, Null);
    SortOne(mj, true);
    SortOne(mk, true);
    assert [mj, mk][..1] == [mj] && [mj, mk][1..] == [mk] && [mk][1..] == [];
    if CompareKeys(mj, mk, true) >= 0 {
      assert Merge([mj], [mk], true) == [mk] + Merge([mj], [], true);
    }
  }

  lemma WalkDone(top: Json)
    ensures PatchMembers([], top, [], [], true) == []
  {
  }

  lemma WalkSame(top: Json, j: Str, from: seq<Member<Json>>, to: seq<Member<Json>>)
    requires Null < top && forall m | m in from :: m.value < top
    ensures PatchMembers([], top, [Member(j, Null)] + from, [Member(j, Null)] + to, true) == PatchMembers([], top, from, to, true)
  {
    var m: Member<Json> := Member(j, Null);
    CompareEqual(j, j);
    assert ([m] + from)[1..] == from && ([m] + to)[1..] == to;
    assert CreatePatches([] + [SLASH] + Encode(j), Null, Null, true) == [];
  }

  lemma WalkGone(top: Json, k: Str, from: seq<Member<Json>>, to: seq<Member<Json>>)
    requires Null < top && forall m | m in from :: m.value < top
    requires to == [] || Compare(k, to[0].key) < 0
    ensures PatchMembers([], top, [Member(k, Null)] + from, to, true) ==
            [ComposePatch(REMOVE, [], Some(k), None)] + PatchMembers([], top, from, to, true)
  {
    var m: Member<Json> := Member(k, Null);
    assert ([m] + from)[1..] == from;
  }

  /**
   * Generating and applying a patch gives back the new tree, for all trees over a set of names,
   * exactly when every name survives in-place decoding and, in the case sensitive mode, no two
   * names differ in case only.
   */
  lemma PatchRoundTripExact(names: iset<Str>, cs: bool)
    ensures AllRoundTrip(names, cs) <==> AllStable(names) && (cs ==> NoCaseTwins(names))
  {
    if AllRoundTrip(names, cs) {
      forall k | k in names
        ensures Stable(k)
      {
        NameSurvives(k, names, cs);
      }
      if cs {
        forall j, k | j in names && k in names && Fold(j, false) == Fold(k, false)
          ensures j == k
        {
          TwinsCollide(j, k, names);
        }
      }
    }
    if AllStable(names) && (cs ==> NoCaseTwins(names)) {
      forall a, b | Fit(a, names, cs) && Fit(b, names, cs)
        ensures RoundTrips(a, b, cs)
      {
        RoundTrip(a, b, names, cs);
      }
    }
  }

  /** Names without tildes and slashes are always safe. */
  lemma PlainRoundTrip(a: Json, b: Json, names: iset<Str>)
    requires forall k | k in names :: SLASH !in k && TILDE !in k
    requires Fit(a, names, false) && Fit(b, names, false)
    ensures RoundTrips(a, b, false)
  {
    forall k | k in names
      ensures Stable(k)
    {
      PlainIsStable(k);
    }
    RoundTrip(a, b, names, false);
  }
}

/** Applying a generated patch to the old tree gives the new one. */
module DiffMeaning {
  import opened Bytes
  import opened Json
  import opened Sorting
  import opened Pointers
  import opened Decoding
  import opened Locating
  import opened Comparing
  import opened Patching
  import opened PatchMeaning
  import opened Operations
  import opened Diffing
  import Rfc = Rfc6902

  // ---- single patches ----

  lemma ComposedPatch(op: Str, path: Str, suffix: Option<Str>, value: Option<Json>, cs: bool)
    requires op in {ADD, REMOVE, REPLACE, MOVE, COPY, TEST}
    ensures var full := match suffix case None => path case Some(s) => path + [SLASH] + Encode(s);
            var patch := ComposePatch(op, path, suffix, value);
            IsPatch(patch, op, full, cs) && Lookup(patch, VALUE, cs) == value
  {
    ComposedLookup(op, path, suffix, value, cs);
  }

  lemma ComposedLookup(op: Str, path: Str, suffix: Option<Str>, value: Option<Json>, cs: bool)
    ensures var full := match suffix case None => path case Some(s) => path + [SLASH] + Encode(s);
            var patch := ComposePatch(op, path, suffix, value);
            && Lookup(patch, OP, cs) == Some(String(op)) && Lookup(patch, PATH, cs) == Some(String(full))
            && Lookup(patch, VALUE, cs) == value
  {
    var ms := ComposePatch(op, path, suffix, value).members;
    assert |Fold(OP, cs)| == 2 && |Fold(PATH, cs)| == 4 && |Fold(VALUE, cs)| == 5;
    FirstOfName(ms, OP, 0, cs);
    FirstOfName(ms, PATH, 1, cs);
    FirstOfName(ms, VALUE, 2, cs);
  }

  lemma FirstOfName<T>(ms: seq<Member<T>>, name: Str, i: nat, cs: bool)
    requires i <= |ms| && forall j | 0 <= j < i :: Fold(ms[j].key, cs) != Fold(name, cs)
    requires i < |ms| ==> Fold(ms[i].key, cs) == Fold(name, cs)
    ensures FindKey(ms, name, cs) == i
  {
  }

  lemma PathOf(ks: Rfc.Path, k: Str)
    ensures PointerOf(ks) + [SLASH] + Encode(k) == PointerOf(ks + [k])
  {
    PointerOfConcat(ks, [k]);
    assert PointerOf([k]) == [SLASH] + (Encode(k) + PointerOf([]));
  }

  // ---- documents on the way ----

  /** In the case sensitive mode, no name of the object differs from `k` in case only. */
  predicate NoCaseTwin(v: Value, k: Str, cs: bool) {
    cs && v.VObject? ==> forall j | j in v.members :: Fold(j, false) == Fold(k, false) ==> j == k
  }

  /** The last token can be edited by the library: it survives in-place decoding, and has no case twin. */
  predicate LastTokenFit(v: Value, ks: Rfc.Path, cs: bool) {
    ks == [] ||
    var p, k := ks[..|ks| - 1], ks[|ks| - 1];
    Stable(k) && Rfc.Get(v, p, cs).Some? && NoCaseTwin(Rfc.Get(v, p, cs).value, k, cs)
  }

  /** The document holds the value `v` at `ks`, where the library can address it. */
  ghost predicate Ready(doc: Json, ks: Rfc.Path, v: Value, cs: bool) {
    && Distinct(doc, cs) && Faithful(Meaning(doc, cs), ks, cs)
    && LastTokenFit(Meaning(doc, cs), ks, cs)
    && Rfc.Get(Meaning(doc, cs), ks, cs) == Some(v)
  }

  /** The document that some patches leave. */
  function After(doc: Json, patches: seq<Json>, cs: bool): Json {
    match ApplyAll(doc, patches, cs)
    case Outcome(d, _) => d
    case RootRemoved => doc
  }

  /** The patches turn the value at `ks` into `v`, and nothing else. */
  ghost predicate Reaches(doc: Json, patches: seq<Json>, ks: Rfc.Path, v: Value, cs: bool) {
    var o := ApplyAll(doc, patches, cs);
    && o.Outcome? && o.status == 0 && Distinct(o.doc, cs)
    && Rfc.Get(Meaning(doc, cs), ks, cs).Some?
    && Meaning(o.doc, cs) == Rfc.PutPath(Meaning(doc, cs), ks, v, cs)
  }

  lemma {:induction false} ApplyAllConcat(doc: Json, a: seq<Json>, b: seq<Json>, cs: bool)
    requires ApplyAll(doc, a, cs).Outcome? && ApplyAll(doc, a, cs).status == 0
    ensures ApplyAll(doc, a + b, cs) == ApplyAll(ApplyAll(doc, a, cs).doc, b, cs)
    decreases |a|
  {
    if a == [] {
      assert a + b == b;
    } else {
      assert (a + b)[1..] == a[1..] + b;
      ApplyAllConcat(ApplyPatch(doc, a[0], cs).doc, a[1..], b, cs);
    }
  }

  lemma {:induction false} FaithfulPut(v: Value, ks: Rfc.Path, x: Value, cs: bool)
    requires Faithful(v, ks, cs) && Rfc.Get(v, ks, cs).Some?
    ensures Faithful(Rfc.PutPath(v, ks, x, cs), ks, cs)
  {
    if ks != [] {
      var c := Rfc.ChildOf(v, ks[0], cs).value;
      FaithfulPut(c, ks[1..], x, cs);
      Rfc.ChildAfterPut(v, ks[0], Rfc.PutPath(c, ks[1..], x, cs), cs);
    }
  }

  lemma PutOne(v: Value, k: Str, x: Value, cs: bool)
    requires Rfc.ChildOf(v, k, cs).Some?
    ensures Rfc.Get(v, [k], cs).Some? && Rfc.PutPath(v, [k], x, cs) == Rfc.PutChild(v, k, x, cs)
  {
    GetOne(v, k, cs);
    assert [k][1..] == [];
  }

  lemma LastTokenFitPut(v: Value, ks: Rfc.Path, x: Value, cs: bool)
    requires LastTokenFit(v, ks, cs) && Rfc.Get(v, ks, cs).Some?
    ensures LastTokenFit(Rfc.PutPath(v, ks, x, cs), ks, cs)
  {
    if ks != [] {
      var p, k := ks[..|ks| - 1], ks[|ks| - 1];
      assert ks == p + [k];
      var parent := Rfc.Get(v, p, cs).value;
      Rfc.GetConcat(v, p, [k], cs);
      GetOne(parent, k, cs);
      Rfc.PutConcat(v, p, [k], x, cs);
      PutOne(parent, k, x, cs);
      Rfc.GetAfterPut(v, p, Rfc.PutChild(parent, k, x, cs), cs);
      if cs && parent.VObject? {
        assert Fold(k, cs) == k;
      }
    }
  }

  /** After the patches the document is ready again, with the new value. */
  lemma StaysReady(doc: Json, patches: seq<Json>, ks: Rfc.Path, v: Value, w: Value, cs: bool)
    requires Ready(doc, ks, v, cs) && Reaches(doc, patches, ks, w, cs)
    ensures Ready(After(doc, patches, cs), ks, w, cs)
  {
    FaithfulPut(Meaning(doc, cs), ks, w, cs);
    LastTokenFitPut(Meaning(doc, cs), ks, w, cs);
    Rfc.GetAfterPut(Meaning(doc, cs), ks, w, cs);
  }

  lemma ReachesThen(doc: Json, a: seq<Json>, b: seq<Json>, ks: Rfc.Path, v: Value, w: Value, cs: bool)
    requires Reaches(doc, a, ks, v, cs) && Reaches(After(doc, a, cs), b, ks, w, cs)
    ensures Reaches(doc, a + b, ks, w, cs)
  {
    ApplyAllConcat(doc, a, b, cs);
    Rfc.PutTwice(Meaning(doc, cs), ks, v, w, cs);
  }

  lemma OnePatch(doc: Json, patch: Json, ks: Rfc.Path, v: Value, cs: bool)
    requires Rfc.Get(Meaning(doc, cs), ks, cs).Some?
    requires Yields(ApplyPatch(doc, patch, cs), Some(Rfc.PutPath(Meaning(doc, cs), ks, v, cs)), cs)
    ensures Reaches(doc, [patch], ks, v, cs)
  {
    ApplySingle(doc, patch, cs);
  }

  lemma ApplySingle(doc: Json, patch: Json, cs: bool)
    requires ApplyPatch(doc, patch, cs).Outcome? && ApplyPatch(doc, patch, cs).status == 0
    ensures ApplyAll(doc, [patch], cs) == ApplyPatch(doc, patch, cs)
  {
    hide ApplyPatch;
    var doc' := ApplyPatch(doc, patch, cs).doc;
    assert [patch][1..] == [];
    assert ApplyAll(doc', [], cs) == Outcome(doc', 0);
  }

  lemma NothingToDo(doc: Json, ks: Rfc.Path, v: Value, cs: bool)
    requires Ready(doc, ks, v, cs)
    ensures Reaches(doc, [], ks, v, cs) && After(doc, [], cs) == doc
  {
    PutSame(Meaning(doc, cs), ks, cs);
  }

  // ---- the hypotheses on the two trees ----

  /** Every key of the tree belongs to `names`, and every array is indexable by `size_t`. */
  ghost predicate Over(t: Json, names: iset<Str>) {
    match t
    case Array(items) => |items| <= SIZE_VALUES && forall x | x in items :: Over(x, names)
    case Object(ms) => forall m | m in ms :: m.key in names && Over(m.value, names)
    case _ => true
  }

  /** No two names differ in case only. */
  ghost predicate NoCaseTwins(names: iset<Str>) {
    forall j, k | j in names && k in names && Fold(j, false) == Fold(k, false) :: j == k
  }

  ghost predicate AllStable(names: iset<Str>) {
    forall k | k in names :: Stable(k)
  }

  /** A tree that a patch can be made from: addressable, and distinct in the case mode. */
  ghost predicate Fit(t: Json, names: iset<Str>, cs: bool) {
    Distinct(t, cs) && Over(t, names)
  }

  ghost predicate FitMembers(ms: seq<Member<Json>>, names: iset<Str>, cs: bool) {
    && Ascending(ms, cs)
    && forall m | m in ms :: m.key in names && Fit(m.value, names, cs)
  }

  lemma FitSorted(t: Json, names: iset<Str>, cs: bool)
    requires t.Object? && Fit(t, names, cs)
    ensures FitMembers(Sort(t.members, cs), names, cs)
    ensures forall m | m in Sort(t.members, cs) :: m.value < t
    ensures MeaningMembers(Sort(t.members, cs), cs) == MeaningMembers(t.members, cs)
  {
    SortedSubtrees(t, cs);
    SortPermutes(t.members, cs);
    forall m | m in Sort(t.members, cs)
      ensures m.key in names && Fit(m.value, names, cs)
    {
      assert m in multiset(t.members);
    }
  }

  // ---- going down one level ----

  /** A document ready at `ks` is ready at a child there. */
  lemma ReadyBelow(doc: Json, ks: Rfc.Path, v: Value, k: Str, cs: bool)
    requires Ready(doc, ks, v, cs) && Rfc.ChildOf(v, k, cs).Some? && Stable(k) && NoCaseTwin(v, k, cs)
    requires v.VArray? ==> IndexAsRfc(Encode(k))
    ensures Ready(doc, ks + [k], Rfc.ChildOf(v, k, cs).value, cs)
  {
    var m := Meaning(doc, cs);
    Rfc.GetConcat(m, ks, [k], cs);
    GetOne(v, k, cs);
    FaithfulConcat(m, ks, k, cs);
    assert (ks + [k])[..|ks|] == ks;
  }

  lemma {:induction false} FaithfulConcat(v: Value, ks: Rfc.Path, k: Str, cs: bool)
    requires Faithful(v, ks, cs)
    requires Rfc.Get(v, ks, cs).Some? && Rfc.Get(v, ks, cs).value.VArray? ==> IndexAsRfc(Encode(k))
    ensures Faithful(v, ks + [k], cs)
  {
    if ks == [] {
      assert [k][1..] == [];
    } else {
      assert (ks + [k])[1..] == ks[1..] + [k];
      if Rfc.ChildOf(v, ks[0], cs).Some? {
        FaithfulConcat(Rfc.ChildOf(v, ks[0], cs).value, ks[1..], k, cs);
      }
    }
  }

  /** Patching the child patches the value at `ks`. */
  lemma ReachesUp(doc: Json, patches: seq<Json>, ks: Rfc.Path, v: Value, k: Str, w: Value, cs: bool)
    requires Ready(doc, ks, v, cs) && Rfc.ChildOf(v, k, cs).Some?
    requires Reaches(doc, patches, ks + [k], w, cs)
    ensures Reaches(doc, patches, ks, Rfc.PutChild(v, k, w, cs), cs)
  {
    PutOne(v, k, w, cs);
    Rfc.PutConcat(Meaning(doc, cs), ks, [k], w, cs);
  }

  /** An operation of the RFC at a child, done by one patch. */
  lemma EditReaches(doc: Json, patch: Json, ks: Rfc.Path, v: Value, k: Str, e: Rfc.Edit, cs: bool)
    requires Ready(doc, ks, v, cs) && Rfc.EditHere(v, k, e, cs).Some?
    requires Yields(ApplyPatch(doc, patch, cs), Rfc.Apply(Meaning(doc, cs), ks + [k], e, cs), cs)
    ensures Reaches(doc, [patch], ks, Rfc.EditHere(v, k, e, cs).value, cs)
  {
    Rfc.ApplyUnder(Meaning(doc, cs), ks, [k], e, cs);
    OnePatch(doc, patch, ks, Rfc.EditHere(v, k, e, cs).value, cs);
  }

  // ---- replacing the whole value ----

  lemma ReplaceReaches(doc: Json, ks: Rfc.Path, v: Value, x: Json, cs: bool)
    requires Ready(doc, ks, v, cs) && Distinct(x, cs)
    ensures Reaches(doc, [ComposePatch(REPLACE, PointerOf(ks), None, Some(x))], ks, Meaning(x, cs), cs)
  {
    hide Faithful, Distinct, Meaning, ApplyPatch, Lookup;
    var patch := ComposePatch(REPLACE, PointerOf(ks), None, Some(x));
    ComposedPatch(REPLACE, PointerOf(ks), None, Some(x), cs);
    if ks == [] {
      ReplaceRoot(doc, patch, x, cs);
    } else {
      var p: Rfc.Path, k: Str := ks[..|ks| - 1], ks[|ks| - 1];
      assert ks == p + [k];
      ReplaceBelow(doc, patch, p, k, x, cs);
    }
    OnePatch(doc, patch, ks, Meaning(x, cs), cs);
  }

  lemma ReplaceRoot(doc: Json, patch: Json, x: Json, cs: bool)
    requires IsPatch(patch, REPLACE, [], cs) && Lookup(patch, VALUE, cs) == Some(x)
    ensures ApplyPatch(doc, patch, cs) == Outcome(x, 0)
  {
    hide Lookup;
  }

  lemma ReplaceBelow(doc: Json, patch: Json, p: Rfc.Path, k: Str, x: Json, cs: bool)
    requires Distinct(doc, cs) && Distinct(x, cs) && Faithful(Meaning(doc, cs), p + [k], cs)
    requires Rfc.Get(Meaning(doc, cs), p + [k], cs).Some? && LastTokenFit(Meaning(doc, cs), p + [k], cs)
    requires IsPatch(patch, REPLACE, PointerOf(p + [k]), cs) && Lookup(patch, VALUE, cs) == Some(x)
    ensures Yields(ApplyPatch(doc, patch, cs), Some(Rfc.PutPath(Meaning(doc, cs), p + [k], Meaning(x, cs), cs)), cs)
  {
    var m := Meaning(doc, cs);
    assert (p + [k])[..|p|] == p;
    FaithfulPrefix(m, p, [k], cs);
    NoTwinAt(doc, p, Rfc.Get(m, p, cs).value, k, Meaning(x, cs), cs);
    ReplaceConforms(doc, patch, p, k, cs);
    Rfc.ReplaceIsPut(m, p + [k], Meaning(x, cs), cs);
  }

  /** The library's case-insensitive detach is harmless where there is no case twin, and un-escaping where the name is stable. */
  lemma NoTwinAt(doc: Json, ks: Rfc.Path, v: Value, k: Str, x: Value, cs: bool)
    requires Distinct(doc, cs) && Faithful(Meaning(doc, cs), ks, cs) && Rfc.Get(Meaning(doc, cs), ks, cs) == Some(v)
    requires NoCaseTwin(v, k, cs) && Stable(k)
    ensures TakesAsked(doc, ks, k, cs) && ReplacesAsAsked(doc, ks, k, x, cs)
  {
    UnescapedStable(k);
    LocateMeaning(doc, ks, cs);
    var pos := Locate(doc, PointerOf(ks), cs);
    if cs && pos.Some? && NodeAt(doc, pos.value).Object? {
      var ms := NodeAt(doc, pos.value).members;
      var i := FindKey(ms, k, true);
      forall j | 0 <= j < |ms| && Fold(ms[j].key, false) == Fold(k, false)
        ensures ms[j].key == k
      {
        MemberMeaning(ms, j, true);
      }
      FirstOfName(ms, k, i, false);
    }
  }

  // ---- single steps ----

  /** The document after some patches, ready again with the value `w`. */
  ghost predicate Moves(doc: Json, patches: seq<Json>, ks: Rfc.Path, w: Value, cs: bool) {
    Reaches(doc, patches, ks, w, cs) && Ready(After(doc, patches, cs), ks, w, cs)
  }

  lemma RemoveStep(doc: Json, ks: Rfc.Path, v: Value, k: Str, cs: bool)
    requires Ready(doc, ks, v, cs) && Rfc.EditHere(v, k, Rfc.Remove, cs).Some?
    requires Stable(k) && NoCaseTwin(v, k, cs) && (v.VArray? ==> IndexAsRfc(Encode(k)))
    ensures Moves(doc, [ComposePatch(REMOVE, PointerOf(ks), Some(k), None)], ks, Rfc.EditHere(v, k, Rfc.Remove, cs).value, cs)
  {
    var patch := ComposePatch(REMOVE, PointerOf(ks), Some(k), None);
    ComposedPatch(REMOVE, PointerOf(ks), Some(k), None, cs);
    PathOf(ks, k);
    FaithfulConcat(Meaning(doc, cs), ks, k, cs);
    NoTwinAt(doc, ks, v, k, v, cs);
    RemoveConforms(doc, patch, ks, k, cs);
    EditReaches(doc, patch, ks, v, k, Rfc.Remove, cs);
    StaysReady(doc, [patch], ks, v, Rfc.EditHere(v, k, Rfc.Remove, cs).value, cs);
  }

  lemma AddStep(doc: Json, ks: Rfc.Path, v: Value, k: Str, x: Json, cs: bool)
    requires Ready(doc, ks, v, cs) && Distinct(x, cs) && Rfc.EditHere(v, k, Rfc.Add(Meaning(x, cs)), cs).Some?
    requires Stable(k) && (v.VArray? ==> IndexAsRfc(Encode(k)))
    ensures Moves(doc, [ComposePatch(ADD, PointerOf(ks), Some(k), Some(x))], ks, Rfc.EditHere(v, k, Rfc.Add(Meaning(x, cs)), cs).value, cs)
  {
    var patch, e := ComposePatch(ADD, PointerOf(ks), Some(k), Some(x)), Rfc.Add(Meaning(x, cs));
    ComposedPatch(ADD, PointerOf(ks), Some(k), Some(x), cs);
    PathOf(ks, k);
    FaithfulConcat(Meaning(doc, cs), ks, k, cs);
    UnescapedStable(k);
    AddConforms(doc, patch, ks, k, cs);
    EditReaches(doc, patch, ks, v, k, e, cs);
    StaysReady(doc, [patch], ks, v, Rfc.EditHere(v, k, e, cs).value, cs);
  }

  lemma ChildStep(doc: Json, patches: seq<Json>, ks: Rfc.Path, v: Value, k: Str, w: Value, cs: bool)
    requires Ready(doc, ks, v, cs) && Rfc.ChildOf(v, k, cs).Some?
    requires Reaches(doc, patches, ks + [k], w, cs)
    ensures Moves(doc, patches, ks, Rfc.PutChild(v, k, w, cs), cs)
  {
    ReachesUp(doc, patches, ks, v, k, w, cs);
    StaysReady(doc, patches, ks, v, Rfc.PutChild(v, k, w, cs), cs);
  }

  // ---- arrays ----

  /** The token of an array index, as the library writes it. */
  lemma IndexToken(n: nat)
    requires n < SIZE_VALUES
    ensures RfcIndex(Decimal(n)) == Some(n) && Encode(Decimal(n)) == Decimal(n)
    ensures IndexAsRfc(Encode(Decimal(n))) && Stable(Decimal(n))
  {
    DecimalRoundTrip(n);
    EncodePlain(Decimal(n));
    PlainIsStable(Decimal(n));
  }

  lemma DashToken()
    ensures var k: Str := [DASH]; IndexAsRfc(Encode(k)) && Stable(k)
  {
    var k: Str := [DASH];
    EncodePlain(k);
    PlainIsStable(k);
  }

  /** An array whose first elements are already the new ones, and whose others are still the old ones. */
  function Mixed(done: seq<Value>, rest: seq<Json>, cs: bool): Value {
    VArray(done + MeaningItems(rest, cs))
  }

  lemma MixedHead(done: seq<Value>, rest: seq<Json>, k: Str, cs: bool)
    requires rest != [] && RfcIndex(k) == Some(|done|)
    ensures Rfc.ChildOf(Mixed(done, rest, cs), k, cs) == Some(Meaning(rest[0], cs))
    ensures Rfc.EditHere(Mixed(done, rest, cs), k, Rfc.Remove, cs) == Some(Mixed(done, rest[1..], cs))
  {
    hide RfcIndex;
    DropNext(done, MeaningItems(rest, cs));
  }

  lemma DropNext<T>(done: seq<T>, rest: seq<T>)
    requires rest != []
    ensures Without(done + rest, |done|) == done + rest[1..]
  {
  }

  lemma MixedPut(done: seq<Value>, rest: seq<Json>, k: Str, x: Value, cs: bool)
    requires rest != [] && RfcIndex(k) == Some(|done|)
    ensures Rfc.ChildOf(Mixed(done, rest, cs), k, cs).Some?
    ensures Rfc.PutChild(Mixed(done, rest, cs), k, x, cs) == Mixed(done + [x], rest[1..], cs)
  {
    hide RfcIndex;
    PutNext(done, MeaningItems(rest, cs), x);
  }

  lemma PutNext<T>(done: seq<T>, rest: seq<T>, y: T)
    requires rest != []
    ensures (done + rest)[|done| := y] == done + [y] + rest[1..]
  {
  }

  /** Left-over elements go, always at the same index. */
  lemma {:induction false} RemoveReaches(doc: Json, ks: Rfc.Path, done: seq<Value>, from: seq<Json>, cs: bool)
    requires |done| + |from| <= SIZE_VALUES
    requires Ready(doc, ks, Mixed(done, from, cs), cs)
    ensures Moves(doc, RemoveItems(PointerOf(ks), |done|, from), ks, Mixed(done, [], cs), cs)
    decreases |from|
  {
    hide Ready, Reaches;
    var v := Mixed(done, from, cs);
    if from == [] {
      NothingToDo(doc, ks, v, cs);
    } else {
      var first := [ComposePatch(REMOVE, PointerOf(ks), Some(Decimal(|done|)), None)];
      IndexToken(|done|);
      MixedHead(done, from, Decimal(|done|), cs);
      RemoveStep(doc, ks, v, Decimal(|done|), cs);
      RemoveReaches(After(doc, first, cs), ks, done, from[1..], cs);
      MovesThen(doc, first, RemoveItems(PointerOf(ks), |done|, from[1..]), ks, Mixed(done, from[1..], cs), Mixed(done, [], cs), cs);
    }
  }

  lemma MovesThen(doc: Json, a: seq<Json>, b: seq<Json>, ks: Rfc.Path, v: Value, w: Value, cs: bool)
    requires Moves(doc, a, ks, v, cs) && Moves(After(doc, a, cs), b, ks, w, cs)
    ensures Moves(doc, a + b, ks, w, cs)
  {
    ReachesThen(doc, a, b, ks, v, w, cs);
    ApplyAllConcat(doc, a, b, cs);
  }

  /** New elements are appended with the index "-". */
  lemma {:induction false} AddReaches(doc: Json, ks: Rfc.Path, done: seq<Value>, to: seq<Json>, cs: bool)
    requires forall x | x in to :: Distinct(x, cs)
    requires Ready(doc, ks, Mixed(done, [], cs), cs)
    ensures Moves(doc, AddItems(PointerOf(ks), to), ks, Mixed(done, to, cs), cs)
    decreases |to|
  {
    hide Ready, Reaches;
    if to == [] {
      NothingToDo(doc, ks, Mixed(done, [], cs), cs);
    } else {
      var x, first := Meaning(to[0], cs), [ComposePatch(ADD, PointerOf(ks), Some([DASH]), Some(to[0]))];
      assert to[0] in to;
      DashToken();
      Appended(done, x, cs);
      AddStep(doc, ks, Mixed(done, [], cs), [DASH], to[0], cs);
      AddReaches(After(doc, first, cs), ks, done + [x], to[1..], cs);
      Shifted(done, to, cs);
      MovesThen(doc, first, AddItems(PointerOf(ks), to[1..]), ks, Mixed(done + [x], [], cs), Mixed(done, to, cs), cs);
    }
  }

  lemma Appended(done: seq<Value>, x: Value, cs: bool)
    ensures Rfc.EditHere(Mixed(done, [], cs), [DASH], Rfc.Add(x), cs) == Some(Mixed(done + [x], [], cs))
  {
    assert done + MeaningItems([], cs) + [x] == done + [x] + MeaningItems([], cs);
  }

  lemma Shifted(done: seq<Value>, to: seq<Json>, cs: bool)
    requires to != []
    ensures Mixed(done + [Meaning(to[0], cs)], to[1..], cs) == Mixed(done, to, cs)
  {
    TakeFirst(done, MeaningItems(to, cs));
  }

  lemma TakeFirst<T>(done: seq<T>, rest: seq<T>)
    requires rest != []
    ensures done + [rest[0]] + rest[1..] == done + rest
  {
  }

  /** The array part: `done` elements are already those of the new array. */
  lemma {:induction false} ItemsReach(doc: Json, ks: Rfc.Path, done: seq<Value>, from: seq<Json>, to: seq<Json>, names: iset<Str>, cs: bool)
    requires AllStable(names) && (cs ==> NoCaseTwins(names))
    requires (forall x | x in from :: Fit(x, names, cs)) && (forall x | x in to :: Fit(x, names, cs))
    requires |done| + |from| <= SIZE_VALUES
    requires Ready(doc, ks, Mixed(done, from, cs), cs)
    ensures Moves(doc, PatchItems(PointerOf(ks), |done|, from, to, cs), ks, Mixed(done, to, cs), cs)
    decreases from
  {
    hide Ready, Reaches;
    var path := PointerOf(ks);
    if from != [] && to != [] {
      var k, x := Decimal(|done|), Meaning(to[0], cs);
      var first := CreatePatches(path + [SLASH] + k, from[0], to[0], cs);
      assert from[0] in from && to[0] in to;
      ItemReaches(doc, ks, done, from, to[0], names, cs);
      ItemsReach(After(doc, first, cs), ks, done + [x], from[1..], to[1..], names, cs);
      Shifted(done, to, cs);
      MovesThen(doc, first, PatchItems(path, |done| + 1, from[1..], to[1..], cs), ks,
                Mixed(done + [x], from[1..], cs), Mixed(done, to, cs), cs);
    } else {
      var gone := RemoveItems(path, |done|, from);
      RemoveReaches(doc, ks, done, from, cs);
      if from == [] {
        AddReaches(After(doc, gone, cs), ks, done, to, cs);
        MovesThen(doc, gone, AddItems(path, to), ks, Mixed(done, [], cs), Mixed(done, to, cs), cs);
      } else {
        assert gone + AddItems(path, to) == gone;
      }
    }
  }

  lemma ItemReaches(doc: Json, ks: Rfc.Path, done: seq<Value>, from: seq<Json>, b: Json, names: iset<Str>, cs: bool)
    requires AllStable(names) && (cs ==> NoCaseTwins(names))
    requires from != [] && Fit(from[0], names, cs) && Fit(b, names, cs)
    requires |done| < SIZE_VALUES && Ready(doc, ks, Mixed(done, from, cs), cs)
    ensures Moves(doc, CreatePatches(PointerOf(ks) + [SLASH] + Decimal(|done|), from[0], b, cs), ks,
                  Mixed(done + [Meaning(b, cs)], from[1..], cs), cs)
    decreases from, 0
  {
    hide Ready, Reaches;
    var k, v, x := Decimal(|done|), Mixed(done, from, cs), Meaning(b, cs);
    IndexToken(|done|);
    PathOf(ks, k);
    MixedHead(done, from, Decimal(|done|), cs);
    MixedPut(done, from, k, x, cs);
    ReadyBelow(doc, ks, v, k, cs);
    DiffReaches(doc, ks + [k], from[0], b, names, cs);
    ChildStep(doc, CreatePatches(PointerOf(ks + [k]), from[0], b, cs), ks, v, k, x, cs);
  }

  // ---- objects ----

  /** The members of an object half way: `done`, and the old members that the walk has not reached. */
  function Merged(done: map<Str, Value>, rest: seq<Member<Json>>, cs: bool): Value {
    VObject(done + MeaningMembers(rest, cs))
  }

  /** The names of `done` are apart from those still to come. */
  ghost predicate Apart(done: map<Str, Value>, rest: seq<Member<Json>>, cs: bool) {
    forall k | k in MeaningMembers(rest, cs) :: k !in done
  }

  lemma MapPut<K, V>(a: map<K, V>, b: map<K, V>, k: K, v: V, x: V)
    requires k !in b
    ensures (a + b[k := v])[k := x] == a[k := x] + b
    ensures (a + b)[k := x] == a[k := x] + b
    ensures a + b[k := x] == a[k := x] + b
  {
  }

  lemma MapDrop<K, V>(a: map<K, V>, b: map<K, V>, k: K, v: V)
    requires k !in a && k !in b
    ensures (a + b[k := v]) - {k} == a + b
  {
  }

  /** In the case sensitive mode, every name of `done` is one of `names`. */
  ghost predicate Known(done: map<Str, Value>, names: iset<Str>, cs: bool) {
    cs ==> forall k | k in done :: k in names
  }

  lemma NoTwinMerged(done: map<Str, Value>, rest: seq<Member<Json>>, k: Str, names: iset<Str>, cs: bool)
    requires cs ==> NoCaseTwins(names)
    requires Known(done, names, cs) && FitMembers(rest, names, cs) && k in names
    ensures NoCaseTwin(Merged(done, rest, cs), k, cs)
  {
    if cs {
      forall j | j in Merged(done, rest, cs).members
        ensures j in names
      {
        if j !in done {
          var i := KeyOrigin(rest, j, cs);
          assert rest[i] in rest;
        }
      }
    }
  }

  lemma FitTail(ms: seq<Member<Json>>, names: iset<Str>, cs: bool)
    requires ms != [] && FitMembers(ms, names, cs)
    ensures FitMembers(ms[1..], names, cs)
    ensures ms[0].key in names && Fit(ms[0].value, names, cs)
    ensures Fold(ms[0].key, cs) !in MeaningMembers(ms[1..], cs)
    ensures MeaningMembers(ms, cs) == MeaningMembers(ms[1..], cs)[Fold(ms[0].key, cs) := Meaning(ms[0].value, cs)]
  {
    LeastName(ms, cs);
    assert ms[0] in ms;
    forall m | m in ms[1..]
      ensures m in ms
    {
    }
  }

  /** A member of the old object that the new one does not have. */
  lemma DropMember(doc: Json, ks: Rfc.Path, done: map<Str, Value>, from: seq<Member<Json>>, names: iset<Str>, cs: bool)
    requires AllStable(names) && (cs ==> NoCaseTwins(names))
    requires from != [] && FitMembers(from, names, cs) && Apart(done, from, cs) && Known(done, names, cs)
    requires Ready(doc, ks, Merged(done, from, cs), cs)
    ensures Moves(doc, [ComposePatch(REMOVE, PointerOf(ks), Some(from[0].key), None)], ks, Merged(done, from[1..], cs), cs)
  {
    hide Ready, Moves;
    var k := from[0].key;
    FitTail(from, names, cs);
    NoTwinMerged(done, from, k, names, cs);
    MapDrop(done, MeaningMembers(from[1..], cs), Fold(k, cs), Meaning(from[0].value, cs));
    RemoveStep(doc, ks, Merged(done, from, cs), k, cs);
  }

  /** A member of the new object that the old one does not have. */
  lemma NewMember(doc: Json, ks: Rfc.Path, done: map<Str, Value>, from: seq<Member<Json>>, m: Member<Json>, names: iset<Str>, cs: bool)
    requires AllStable(names) && m.key in names && Distinct(m.value, cs)
    requires Fold(m.key, cs) !in MeaningMembers(from, cs)
    requires Ready(doc, ks, Merged(done, from, cs), cs)
    ensures Moves(doc, [ComposePatch(ADD, PointerOf(ks), Some(m.key), Some(m.value))], ks,
                  Merged(done[Fold(m.key, cs) := Meaning(m.value, cs)], from, cs), cs)
  {
    hide Ready, Moves;
    MapPut(done, MeaningMembers(from, cs), Fold(m.key, cs), VNull, Meaning(m.value, cs));
    AddStep(doc, ks, Merged(done, from, cs), m.key, m.value, cs);
  }

  /** A member of both. */
  lemma SameMember(doc: Json, ks: Rfc.Path, done: map<Str, Value>, from: seq<Member<Json>>, b: Json, names: iset<Str>, cs: bool)
    requires AllStable(names) && (cs ==> NoCaseTwins(names))
    requires from != [] && FitMembers(from, names, cs) && Known(done, names, cs) && Fit(b, names, cs)
    requires Ready(doc, ks, Merged(done, from, cs), cs)
    ensures Moves(doc, CreatePatches(PointerOf(ks) + [SLASH] + Encode(from[0].key), from[0].value, b, cs), ks,
                  Merged(done[Fold(from[0].key, cs) := Meaning(b, cs)], from[1..], cs), cs)
    decreases from[0].value, 2, 0
  {
    hide Ready, Moves, Reaches;
    var k, v := from[0].key, Merged(done, from, cs);
    FitTail(from, names, cs);
    NoTwinMerged(done, from, k, names, cs);
    PathOf(ks, k);
    ReadyBelow(doc, ks, v, k, cs);
    DiffReaches(doc, ks + [k], from[0].value, b, names, cs);
    ChildStep(doc, CreatePatches(PointerOf(ks + [k]), from[0].value, b, cs), ks, v, k, Meaning(b, cs), cs);
    MapPut(done, MeaningMembers(from[1..], cs), Fold(k, cs), Meaning(from[0].value, cs), Meaning(b, cs));
  }

  /** Names above the first of an ascending list do not occur in it. */
  lemma NotBelowFirst(ms: seq<Member<Json>>, m: Member<Json>, cs: bool)
    requires Ascending(ms, cs) && (ms != [] ==> CompareKeys(m, ms[0], cs) < 0)
    ensures Fold(m.key, cs) !in MeaningMembers(ms, cs)
  {
    if ms != [] {
      LeastName(ms, cs);
      CompareAntisymmetric(Fold(m.key, cs), Fold(ms[0].key, cs));
      CompareEqual(Fold(m.key, cs), Fold(m.key, cs));
    }
  }

  /** How the heads of the two lists compare in the walk. */
  function HeadDiff(from: seq<Member<Json>>, to: seq<Member<Json>>, cs: bool): int
    requires from != [] || to != []
  {
    if from == [] then 1 else if to == [] then -1 else CompareKeys(from[0], to[0], cs)
  }

  /** What the walk keeps about the two lists and the part of the object that is done. */
  ghost predicate Walking(done: map<Str, Value>, from: seq<Member<Json>>, to: seq<Member<Json>>, names: iset<Str>, cs: bool) {
    && FitMembers(from, names, cs) && FitMembers(to, names, cs)
    && Apart(done, from, cs) && Apart(done, to, cs) && Known(done, names, cs)
  }

  /** Taking the head of the new list keeps it, and the goal stays the same. */
  lemma WalkOn(done: map<Str, Value>, from: seq<Member<Json>>, to: seq<Member<Json>>, names: iset<Str>, cs: bool)
    requires Walking(done, from, to, names, cs) && to != [] && HeadDiff(from, to, cs) >= 0
    ensures var rest := if HeadDiff(from, to, cs) == 0 then from[1..] else from;
            var done' := done[Fold(to[0].key, cs) := Meaning(to[0].value, cs)];
            && Walking(done', rest, to[1..], names, cs)
            && Fold(to[0].key, cs) !in MeaningMembers(rest, cs)
            && Merged(done', to[1..], cs) == Merged(done, to, cs)
  {
    var k := Fold(to[0].key, cs);
    FitTail(to, names, cs);
    if from != [] {
      FitTail(from, names, cs);
      CompareStringsEqual(from[0].key, to[0].key, cs);
      CompareAntisymmetric(Fold(from[0].key, cs), k);
    }
    if HeadDiff(from, to, cs) != 0 { NotBelowFirst(from, to[0], cs); }
    MapPut(done, MeaningMembers(to[1..], cs), k, VNull, Meaning(to[0].value, cs));
  }

  lemma WalkPast(done: map<Str, Value>, from: seq<Member<Json>>, to: seq<Member<Json>>, names: iset<Str>, cs: bool)
    requires Walking(done, from, to, names, cs) && from != []
    ensures Walking(done, from[1..], to, names, cs)
  {
    FitTail(from, names, cs);
  }

  /** The patches for the head of the new list: those for a member of both, or one that adds it. */
  lemma TakeHead(doc: Json, ks: Rfc.Path, done: map<Str, Value>, top: Json, from: seq<Member<Json>>, to: seq<Member<Json>>, names: iset<Str>, cs: bool)
    requires AllStable(names) && (cs ==> NoCaseTwins(names))
    requires from != [] ==> from[0].value < top
    requires Walking(done, from, to, names, cs) && to != [] && HeadDiff(from, to, cs) >= 0
    requires Ready(doc, ks, Merged(done, from, cs), cs)
    ensures var both := HeadDiff(from, to, cs) == 0;
            Moves(doc,
                  if both then CreatePatches(PointerOf(ks) + [SLASH] + Encode(from[0].key), from[0].value, to[0].value, cs)
                  else [ComposePatch(ADD, PointerOf(ks), Some(to[0].key), Some(to[0].value))],
                  ks, Merged(done[Fold(to[0].key, cs) := Meaning(to[0].value, cs)], if both then from[1..] else from, cs), cs)
    decreases top, 0, 0
  {
    hide Ready, Reaches, Moves;
    WalkOn(done, from, to, names, cs);
    assert to[0] in to;
    if HeadDiff(from, to, cs) == 0 {
      CompareStringsEqual(from[0].key, to[0].key, cs);
      SameMember(doc, ks, done, from, to[0].value, names, cs);
    } else {
      NewMember(doc, ks, done, from, to[0], names, cs);
    }
  }

  /** One turn of the object loop, by the order of the two names at the head. */
  lemma MembersTurn(path: Str, top: Json, from: seq<Member<Json>>, to: seq<Member<Json>>, cs: bool)
    requires forall m | m in from :: m.value < top
    ensures from == [] && to == [] ==> PatchMembers(path, top, from, to, cs) == []
    ensures from != [] || to != [] ==>
            var diff := HeadDiff(from, to, cs);
            && (diff < 0 ==>
                  from != [] && PatchMembers(path, top, from, to, cs) ==
                  [ComposePatch(REMOVE, path, Some(from[0].key), None)] + PatchMembers(path, top, from[1..], to, cs))
            && (diff == 0 ==>
                  from != [] && to != [] && PatchMembers(path, top, from, to, cs) ==
                  CreatePatches(path + [SLASH] + Encode(from[0].key), from[0].value, to[0].value, cs) + PatchMembers(path, top, from[1..], to[1..], cs))
            && (diff > 0 ==>
                  to != [] && PatchMembers(path, top, from, to, cs) ==
                  [ComposePatch(ADD, path, Some(to[0].key), Some(to[0].value))] + PatchMembers(path, top, from, to[1..], cs))
  {
    hide ComposePatch, CreatePatches, CompareKeys, Encode;
  }

  /** The object part, along the merge of the two sorted lists. */
  lemma {:induction false} MembersReach(doc: Json, ks: Rfc.Path, done: map<Str, Value>, top: Json,
                                        from: seq<Member<Json>>, to: seq<Member<Json>>, names: iset<Str>, cs: bool)
    requires AllStable(names) && (cs ==> NoCaseTwins(names))
    requires Walking(done, from, to, names, cs) && forall m | m in from :: m.value < top
    requires Ready(doc, ks, Merged(done, from, cs), cs)
    ensures Moves(doc, PatchMembers(PointerOf(ks), top, from, to, cs), ks, Merged(done, to, cs), cs)
    decreases top, 0, 2 * (|from| + |to|) + 1
  {
    hide Ready, Reaches, Walking, Merged, FitMembers, CreatePatches, ComposePatch, PatchMembers, HeadDiff, AllStable, NoCaseTwins, PointerOf;
    if from == [] && to == [] {
      MembersTurn(PointerOf(ks), top, from, to, cs);
      NothingToDo(doc, ks, Merged(done, to, cs), cs);
    } else if HeadDiff(from, to, cs) < 0 {
      DropTurn(doc, ks, done, top, from, to, names, cs);
    } else {
      TakeTurn(doc, ks, done, top, from, to, names, cs);
    }
  }

  /** The head of the first object is not in the second: it is removed. */
  lemma {:induction false} DropTurn(doc: Json, ks: Rfc.Path, done: map<Str, Value>, top: Json,
                                    from: seq<Member<Json>>, to: seq<Member<Json>>, names: iset<Str>, cs: bool)
    requires AllStable(names) && (cs ==> NoCaseTwins(names))
    requires Walking(done, from, to, names, cs) && forall m | m in from :: m.value < top
    requires Ready(doc, ks, Merged(done, from, cs), cs) && (from != [] || to != []) && HeadDiff(from, to, cs) < 0
    ensures Moves(doc, PatchMembers(PointerOf(ks), top, from, to, cs), ks, Merged(done, to, cs), cs)
    decreases top, 0, 2 * (|from| + |to|)
  {
    hide Ready, Reaches, Walking, Merged, FitMembers, CreatePatches, ComposePatch, PatchMembers, HeadDiff, AllStable, NoCaseTwins, PointerOf, After;
    var path := PointerOf(ks);
    MembersTurn(path, top, from, to, cs);
    var first := [ComposePatch(REMOVE, path, Some(from[0].key), None)];
    WalkPast(done, from, to, names, cs);
    DropWalked(doc, ks, done, from, to, names, cs);
    MembersReach(After(doc, first, cs), ks, done, top, from[1..], to, names, cs);
    MovesThen(doc, first, PatchMembers(path, top, from[1..], to, cs), ks, Merged(done, from[1..], cs), Merged(done, to, cs), cs);
  }

  /** The head of the second object is added, or made of the head of the first. */
  lemma {:induction false} TakeTurn(doc: Json, ks: Rfc.Path, done: map<Str, Value>, top: Json,
                                    from: seq<Member<Json>>, to: seq<Member<Json>>, names: iset<Str>, cs: bool)
    requires AllStable(names) && (cs ==> NoCaseTwins(names))
    requires Walking(done, from, to, names, cs) && forall m | m in from :: m.value < top
    requires Ready(doc, ks, Merged(done, from, cs), cs) && (from != [] || to != []) && HeadDiff(from, to, cs) >= 0
    ensures Moves(doc, PatchMembers(PointerOf(ks), top, from, to, cs), ks, Merged(done, to, cs), cs)
    decreases top, 0, 2 * (|from| + |to|)
  {
    hide Ready, Reaches, Walking, Merged, FitMembers, CreatePatches, ComposePatch, PatchMembers, AllStable, NoCaseTwins, PointerOf, After, Moves;
    var path := PointerOf(ks);
    MembersTurn(path, top, from, to, cs);
    var both := HeadDiff(from, to, cs) == 0;
    var done', rest := done[Fold(to[0].key, cs) := Meaning(to[0].value, cs)], if both then from[1..] else from;
    var first := if both then CreatePatches(path + [SLASH] + Encode(from[0].key), from[0].value, to[0].value, cs)
                 else [ComposePatch(ADD, path, Some(to[0].key), Some(to[0].value))];
    assert from != [] ==> from[0] in from;
    WalkOn(done, from, to, names, cs);
    TakeHead(doc, ks, done, top, from, to, names, cs);
    MovedReady(doc, first, ks, Merged(done', rest, cs), cs);
    MembersReach(After(doc, first, cs), ks, done', top, rest, to[1..], names, cs);
    MovesThen(doc, first, PatchMembers(path, top, rest, to[1..], cs), ks, Merged(done', rest, cs), Merged(done, to, cs), cs);
  }

  lemma MovedReady(doc: Json, patches: seq<Json>, ks: Rfc.Path, w: Value, cs: bool)
    requires Moves(doc, patches, ks, w, cs)
    ensures Ready(After(doc, patches, cs), ks, w, cs)
  {
    hide Ready, Reaches, After;
  }

  lemma DropWalked(doc: Json, ks: Rfc.Path, done: map<Str, Value>, from: seq<Member<Json>>, to: seq<Member<Json>>, names: iset<Str>, cs: bool)
    requires AllStable(names) && (cs ==> NoCaseTwins(names))
    requires Walking(done, from, to, names, cs) && from != []
    requires Ready(doc, ks, Merged(done, from, cs), cs)
    ensures Moves(doc, [ComposePatch(REMOVE, PointerOf(ks), Some(from[0].key), None)], ks, Merged(done, from[1..], cs), cs)
  {
    DropMember(doc, ks, done, from, names, cs);
  }

  // ---- the diff ----

  /** A generated patch, applied where the old tree's value is, puts the new tree's value there. */
  lemma {:induction false} DiffReaches(doc: Json, ks: Rfc.Path, a: Json, b: Json, names: iset<Str>, cs: bool)
    requires AllStable(names) && (cs ==> NoCaseTwins(names))
    requires Fit(a, names, cs) && Fit(b, names, cs)
    requires Ready(doc, ks, Meaning(a, cs), cs)
    ensures Reaches(doc, CreatePatches(PointerOf(ks), a, b, cs), ks, Meaning(b, cs), cs)
    decreases a, 1, 0
  {
    hide Ready, Reaches;
    ReplaceReaches(doc, ks, Meaning(a, cs), b, cs);
    NothingToDo(doc, ks, Meaning(a, cs), cs);
    if SameType(a, b) {
      match a {
        case String(s) =>
          CompareEqual(s, b.s);
        case Array(items) =>
          NoneDone(items, cs);
          NoneDone(b.items, cs);
          ItemsReach(doc, ks, [], items, b.items, names, cs);
        case Object(ms) =>
          ObjectReaches(doc, ks, a, b, names, cs);
        case _ =>
      }
    }
  }

  lemma NoneDone(items: seq<Json>, cs: bool)
    ensures Mixed([], items, cs) == Meaning(Array(items), cs)
  {
    assert [] + MeaningItems(items, cs) == MeaningItems(items, cs);
  }

  lemma ObjectReaches(doc: Json, ks: Rfc.Path, a: Json, b: Json, names: iset<Str>, cs: bool)
    requires AllStable(names) && (cs ==> NoCaseTwins(names))
    requires a.Object? && b.Object? && Fit(a, names, cs) && Fit(b, names, cs)
    requires Ready(doc, ks, Meaning(a, cs), cs)
    ensures Moves(doc, CreatePatches(PointerOf(ks), a, b, cs), ks, Meaning(b, cs), cs)
    decreases a, 0, 2 * (|a.members| + |b.members|) + 2
  {
    hide Ready, Reaches, Moves, Fit, FitMembers, CompareKeys;
    FitSorted(a, names, cs);
    FitSorted(b, names, cs);
    SortCorrect(a.members, cs);
    SortCorrect(b.members, cs);
    assert |multiset(Sort(a.members, cs))| == |multiset(a.members)|;
    assert |multiset(Sort(b.members, cs))| == |multiset(b.members)|;
    NoneMerged(MeaningMembers(a.members, cs));
    NoneMerged(MeaningMembers(b.members, cs));
    assert Walking(map[], Sort(a.members, cs), Sort(b.members, cs), names, cs);
    MembersReach(doc, ks, map[], a, Sort(a.members, cs), Sort(b.members, cs), names, cs);
  }

  lemma NoneMerged<K, V>(m: map<K, V>)
    ensures map[] + m == m
  {
  }
}

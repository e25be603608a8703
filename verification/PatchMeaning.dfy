/** What the patch operations mean: each is the operation of section 4 of RFC 6902 on the value of the tree. */
module PatchMeaning {
  import opened Bytes
  import opened Json
  import opened Pointers
  import opened Decoding
  import opened Locating
  import opened Comparing
  import opened Patching
  import Rfc = Rfc6902

  /** A list of reference tokens, spelled as a pointer. */
  function PointerOf(path: Rfc.Path): Str {
    if path == [] then [] else [SLASH] + (Encode(path[0]) + PointerOf(path[1..]))
  }

  lemma {:induction false} PointerOfConcat(p: Rfc.Path, q: Rfc.Path)
    ensures PointerOf(p + q) == PointerOf(p) + PointerOf(q)
  {
    if p == [] {
      assert p + q == q;
    } else {
      assert (p + q)[1..] == p[1..] + q;
      PointerOfConcat(p[1..], q);
    }
  }

  lemma {:induction false} CutAt(a: Str, b: Str)
    requires SLASH !in b
    ensures LastSlash(a + [SLASH] + b) == Some(|a|)
  {
    if a == [] {
      assert a + [SLASH] + b == [SLASH] + b;
      assert ([SLASH] + b)[1..] == b;
    } else {
      assert (a + [SLASH] + b)[1..] == a[1..] + [SLASH] + b;
      CutAt(a[1..], b);
    }
  }

  /** Splitting a pointer at its last slash splits off its last token. */
  lemma CutPointer(p: Rfc.Path, k: Str)
    ensures var full, parent := PointerOf(p + [k]), PointerOf(p);
            && LastSlash(full) == Some(|parent|)
            && full[..|parent|] == parent
            && full[|parent| + 1..] == Encode(k)
  {
    PointerOfConcat(p, [k]);
    assert PointerOf([k]) == [SLASH] + Encode(k) + PointerOf([]);
    assert PointerOf(p + [k]) == PointerOf(p) + [SLASH] + Encode(k);
    EncodeNoSlash(k);
    CutAt(PointerOf(p), Encode(k));
  }

  // ---- tokens that meet an array ----

  lemma {:induction false} EncodedTilde(k: Str)
    requires SLASH in k || TILDE in k
    ensures TILDE in Encode(k)
  {
    if k[0] != SLASH && k[0] != TILDE {
      EncodedTilde(k[1..]);
    }
  }

  lemma IndexOfEncoded(k: Str)
    ensures RfcIndex(Encode(k)) == RfcIndex(k)
  {
    if SLASH in k || TILDE in k {
      EncodedTilde(k);
      assert !AllDigits(Encode(k)) by {
        var i :| 0 <= i < |Encode(k)| && Encode(k)[i] == TILDE;
        assert !IsDigit(Encode(k)[i]);
      }
      assert !AllDigits(k) by {
        var i :| 0 <= i < |k| && (k[i] == TILDE || k[i] == SLASH);
        assert !IsDigit(k[i]);
      }
    } else {
      EncodePlain(k);
    }
  }

  lemma {:induction false} EncodedAbove(k: Str)
    requires SLASH !in k && forall i | 0 <= i < |k| :: k[i] >= ZERO
    ensures forall i | 0 <= i < |Encode(k)| :: Encode(k)[i] >= ZERO
  {
    if k != [] {
      EncodedAbove(k[1..]);
    }
  }

  lemma IndexAsRfcEncoded(k: Str)
    requires SLASH !in k && IndexAsRfc(Encode(k))
    ensures IndexAsRfc(k)
  {
    if TILDE in k {
      EncodedTilde(k);
      var i :| 0 <= i < |Encode(k)| && Encode(k)[i] == TILDE;
      assert !IsDigit(Encode(k)[i]);
      var j :| 0 <= j < |k| && k[j] == TILDE;
      assert !IsDigit(k[j]);
      if forall i | 0 <= i < |k| :: k[i] >= ZERO {
        EncodedAbove(k);
        assert Encode(k)[0] == EncodeChar(k[0])[0];
      }
    } else {
      EncodePlain(k);
    }
  }

  /** The tokens of a path that meet an array are read as the RFC reads them. */
  predicate Faithful(v: Value, path: Rfc.Path, cs: bool) {
    path == [] ||
    (&& (v.VArray? ==> IndexAsRfc(Encode(path[0])))
     && (Rfc.ChildOf(v, path[0], cs).Some? ==> Faithful(Rfc.ChildOf(v, path[0], cs).value, path[1..], cs)))
  }

  // ---- following a pointer ----

  lemma StepMeaning(t: Json, k: Str, rest: Str, cs: bool)
    requires EndsToken(rest) && (t.Array? ==> IndexAsRfc(Encode(k)))
    ensures var step, c := StepInto(t, Encode(k) + rest, cs), Rfc.ChildOf(Meaning(t, cs), k, cs);
            && (step.Some? <==> c.Some?)
            && (step.Some? ==> c.value == Meaning(Child(t, step.value), cs))
            && (step.Some? && t.Object? ==> step.value == FindKey(t.members, k, cs))
            && (step.Some? && t.Array? ==> Some(step.value) == RfcIndex(k))
  {
    match t {
      case Array(items) =>
        EncodeNoSlash(k);
        IndexOfToken(Encode(k), rest);
        DecodeIndexExact(Encode(k));
        IndexOfEncoded(k);
      case Object(ms) =>
        TokenIsKey(ms, k, rest, cs);
        LookupMeaning(ms, k, cs);
      case _ =>
    }
  }

  lemma PointerStep(path: Rfc.Path)
    requires path != []
    ensures PointerOf(path)[1..] == Encode(path[0]) + PointerOf(path[1..])
    ensures EndsToken(PointerOf(path[1..]))
    ensures SkipToken(PointerOf(path)[1..]) == PointerOf(path[1..])
  {
    EncodeNoSlash(path[0]);
    SkipWithin(Encode(path[0]), PointerOf(path[1..]));
  }

  /** The node found means the value found, or neither is there. */
  ghost predicate Finds(t: Json, r: Option<Position>, v: Option<Value>, cs: bool)
    requires r.Some? ==> IsPosition(t, r.value)
  {
    match r
    case None => v.None?
    case Some(pos) => v == Some(Meaning(NodeAt(t, pos), cs)) && Distinct(NodeAt(t, pos), cs)
  }

  /** `get_item_from_pointer` finds a node exactly where the RFC finds a value, and the node means that value. */
  lemma {:induction false} LocateMeaning(t: Json, path: Rfc.Path, cs: bool)
    requires Distinct(t, cs) && Faithful(Meaning(t, cs), path, cs)
    ensures Finds(t, Locate(t, PointerOf(path), cs), Rfc.Get(Meaning(t, cs), path, cs), cs)
    decreases |path|
  {
    if path != [] {
      PointerStep(path);
      StepMeaning(t, path[0], PointerOf(path[1..]), cs);
      var step := StepInto(t, PointerOf(path)[1..], cs);
      if step.Some? {
        var c := Child(t, step.value);
        ChildDistinct(t, step.value, cs);
        LocateMeaning(c, path[1..], cs);
        LocateCons(t, PointerOf(path), cs);
        assert Rfc.Get(Meaning(t, cs), path, cs) == Rfc.Get(Meaning(c, cs), path[1..], cs);
      }
    }
  }

  lemma ChildDistinct(t: Json, i: nat, cs: bool)
    requires Distinct(t, cs) && i < ChildCount(t)
    ensures Distinct(Child(t, i), cs)
  {
    match t {
      case Array(items) => assert items[i] in items;
      case Object(ms) => assert ms[i] in ms;
    }
  }

  // ---- changing a node ----

  lemma {:induction false} UpdateItemMeaning(items: seq<Json>, i: nat, x: Json, cs: bool)
    requires i < |items|
    ensures MeaningItems(items[i := x], cs) == MeaningItems(items, cs)[i := Meaning(x, cs)]
  {
  }

  lemma {:induction false} UpdateMemberMeaning(ms: seq<Member<Json>>, i: nat, x: Json, cs: bool)
    requires i < |ms| && UniqueKeys(ms, cs)
    ensures MeaningMembers(ms[i := Member(ms[i].key, x)], cs) ==
            MeaningMembers(ms, cs)[Fold(ms[i].key, cs) := Meaning(x, cs)]
  {
    var ms' := ms[i := Member(ms[i].key, x)];
    if i == 0 {
      assert ms'[1..] == ms[1..];
    } else {
      assert ms'[1..] == ms[1..][i - 1 := Member(ms[i].key, x)];
      assert UniqueKeys(ms[1..], cs) by {
        forall p, q | 0 <= p < q < |ms| - 1
          ensures Fold(ms[1..][p].key, cs) != Fold(ms[1..][q].key, cs)
        {
          assert Fold(ms[p + 1].key, cs) != Fold(ms[q + 1].key, cs);
        }
      }
      UpdateMemberMeaning(ms[1..], i - 1, x, cs);
    }
  }

  lemma WithChildDistinct(t: Json, i: nat, x: Json, cs: bool)
    requires Distinct(t, cs) && Distinct(x, cs) && i < ChildCount(t)
    ensures Distinct(WithChild(t, i, x), cs)
  {
    match t {
      case Array(items) =>
        forall y | y in items[i := x]
          ensures Distinct(y, cs)
        {
          assert y == x || y in items;
        }
      case Object(ms) =>
        var ms' := ms[i := Member(ms[i].key, x)];
        forall p, q | 0 <= p < q < |ms'|
          ensures Fold(ms'[p].key, cs) != Fold(ms'[q].key, cs)
        {
          assert Fold(ms[p].key, cs) != Fold(ms[q].key, cs);
        }
        forall y | y in ms'
          ensures Distinct(y.value, cs)
        {
          assert y.value == x || y in ms;
        }
    }
  }

  /** Changing the located node changes the value at the path, and nothing else. */
  lemma {:induction false} PutMeaning(t: Json, path: Rfc.Path, x: Json, cs: bool)
    requires Distinct(t, cs) && Distinct(x, cs) && Faithful(Meaning(t, cs), path, cs)
    requires Locate(t, PointerOf(path), cs).Some?
    ensures var t' := PutAt(t, Locate(t, PointerOf(path), cs).value, x);
            && Distinct(t', cs)
            && Rfc.Get(Meaning(t, cs), path, cs).Some?
            && Meaning(t', cs) == Rfc.PutPath(Meaning(t, cs), path, Meaning(x, cs), cs)
    decreases |path|
  {
    LocateMeaning(t, path, cs);
    if path != [] {
      PointerStep(path);
      StepMeaning(t, path[0], PointerOf(path[1..]), cs);
      LocateCons(t, PointerOf(path), cs);
      var i := StepInto(t, PointerOf(path)[1..], cs).value;
      var c := Child(t, i);
      ChildDistinct(t, i, cs);
      PutMeaning(c, path[1..], x, cs);
      var c' := PutAt(c, Locate(c, PointerOf(path[1..]), cs).value, x);
      WithChildDistinct(t, i, c', cs);
      WithChildMeaning(t, path[0], i, c', cs);
    }
  }

  lemma WithChildMeaning(t: Json, k: Str, i: nat, x: Json, cs: bool)
    requires i < ChildCount(t) && Distinct(t, cs)
    requires t.Array? ==> RfcIndex(k) == Some(i)
    requires t.Object? ==> FindKey(t.members, k, cs) == i
    ensures Rfc.ChildOf(Meaning(t, cs), k, cs).Some?
    ensures Meaning(WithChild(t, i, x), cs) == Rfc.PutChild(Meaning(t, cs), k, Meaning(x, cs), cs)
  {
    match t {
      case Array(items) => UpdateItemMeaning(items, i, x, cs);
      case Object(ms) =>
        LookupMeaning(ms, k, cs);
        UpdateMemberMeaning(ms, i, x, cs);
    }
  }

  // ---- edits at one parent ----

  /** A detach that does what the RFC says: the rest and the item mean the given values, or there is neither. */
  ghost predicate Detaches(d: Option<Detached>, rest: Option<Value>, item: Option<Value>, cs: bool) {
    match d
    case None => rest.None?
    case Some(d) =>
      && Distinct(d.rest, cs) && Distinct(d.item, cs)
      && rest == Some(Meaning(d.rest, cs)) && item == Some(Meaning(d.item, cs))
  }

  /** The name of the member that a detach by name takes: the first one, in whatever case; the name itself if there is none. */
  function TakenHere(p: Json, k: Str): Str {
    match p
    case Object(ms) => var i := FindKey(ms, k, false); if i < |ms| then ms[i].key else k
    case _ => k
  }

  lemma DetachHereMeaning(p: Json, k: Str, cs: bool)
    requires Distinct(p, cs) && (p.Array? ==> SLASH !in k && IndexAsRfc(k))
    ensures var j := TakenHere(p, k);
            Detaches(DetachHere(p, k), Rfc.EditHere(Meaning(p, cs), j, Rfc.Remove, cs), Rfc.ChildOf(Meaning(p, cs), j, cs), cs)
  {
    match p {
      case Array(items) => DetachItemMeaning(items, k, cs);
      case Object(ms) => DetachMemberMeaning(ms, k, cs);
      case _ =>
    }
  }

  lemma DetachItemMeaning(items: seq<Json>, k: Str, cs: bool)
    requires Distinct(Array(items), cs) && SLASH !in k && IndexAsRfc(k)
    ensures var p := Array(items);
            Detaches(DetachHere(p, k), Rfc.EditHere(Meaning(p, cs), k, Rfc.Remove, cs), Rfc.ChildOf(Meaning(p, cs), k, cs), cs)
  {
    DecodeIndexExact(k);
    var i := RfcIndex(k);
    if i.Some? && i.value < |items| {
      RemoveItem(items, i.value, cs);
    }
  }

  lemma DetachMemberMeaning(ms: seq<Member<Json>>, k: Str, cs: bool)
    requires Distinct(Object(ms), cs)
    ensures var p := Object(ms); var j := TakenHere(p, k);
            Detaches(DetachHere(p, k), Rfc.EditHere(Meaning(p, cs), j, Rfc.Remove, cs), Rfc.ChildOf(Meaning(p, cs), j, cs), cs)
  {
    var i := FindKey(ms, k, false);
    if i < |ms| {
      MemberMeaning(ms, i, cs);
      RemoveMember(ms, i, cs);
    } else {
      SameInAnyCase(ms, k, cs);
      LookupMeaning(ms, k, cs);
    }
  }

  /** A name that the caller's case mode finds is found in whatever case. */
  lemma SameInAnyCase(ms: seq<Member<Json>>, k: Str, cs: bool)
    ensures FindKey(ms, k, false) <= FindKey(ms, k, cs)
  {
  }

  lemma RemoveItem(items: seq<Json>, i: nat, cs: bool)
    requires Distinct(Array(items), cs) && i < |items|
    ensures Distinct(Array(Without(items, i)), cs) && Distinct(items[i], cs)
    ensures MeaningItems(Without(items, i), cs) == Without(MeaningItems(items, cs), i)
  {
    assert items[i] in items;
    InWithout(items, i);
    MeaningWithout(items, i, cs);
  }

  lemma InWithout<T>(s: seq<T>, i: nat)
    requires i < |s|
    ensures forall x | x in Without(s, i) :: x in s
  {
  }

  lemma MeaningWithout(items: seq<Json>, i: nat, cs: bool)
    requires i < |items|
    ensures MeaningItems(Without(items, i), cs) == Without(MeaningItems(items, cs), i)
  {
    hide Meaning;
  }

  lemma RemoveMember(ms: seq<Member<Json>>, i: nat, cs: bool)
    requires Distinct(Object(ms), cs) && i < |ms|
    ensures Distinct(Object(Without(ms, i)), cs) && Distinct(ms[i].value, cs)
    ensures MeaningMembers(Without(ms, i), cs) == MeaningMembers(ms, cs) - {Fold(ms[i].key, cs)}
  {
    assert ms[i] in ms;
    WithoutKeepsUnique(ms, i, cs);
    WithoutMeaning(ms, i, cs);
    forall m | m in Without(ms, i)
      ensures Distinct(m.value, cs)
    {
      assert m in ms;
    }
  }

  /** Appending under a name that does not occur. */
  lemma AppendMember(ms: seq<Member<Json>>, k: Str, x: Json, cs: bool)
    requires Distinct(Object(ms), cs) && Distinct(x, cs) && Fold(k, cs) !in MeaningMembers(ms, cs)
    ensures Distinct(Object(ms + [Member(k, x)]), cs)
    ensures MeaningMembers(ms + [Member(k, x)], cs) == MeaningMembers(ms, cs)[Fold(k, cs) := Meaning(x, cs)]
  {
    var ms' := ms + [Member(k, x)];
    AppendMeaning(ms, Member(k, x), cs);
    forall p, q | 0 <= p < q < |ms'|
      ensures Fold(ms'[p].key, cs) != Fold(ms'[q].key, cs)
    {
      if q == |ms| { MemberMeaning(ms, p, cs); }
    }
    forall m | m in ms'
      ensures Distinct(m.value, cs)
    {
      assert m in ms || m == Member(k, x);
    }
  }

  /** An addition that does what the RFC says. */
  ghost predicate Adds(a: Added, r: Option<Value>, cs: bool) {
    match a
    case Added(p) => Distinct(p, cs) && r == Some(Meaning(p, cs))
    case Failed(status) => status != 0 && r.None?
  }

  lemma AddHereMeaning(p: Json, k: Str, x: Json, cs: bool)
    requires Distinct(p, cs) && Distinct(x, cs) && (p.Array? ==> SLASH !in k && IndexAsRfc(k))
    ensures Adds(AddHere(p, k, x, cs), Rfc.EditHere(Meaning(p, cs), k, Rfc.Add(Meaning(x, cs)), cs), cs)
  {
    match p {
      case Array(items) => AddItemMeaning(items, k, x, cs);
      case Object(ms) => AddMemberMeaning(ms, k, x, cs);
      case _ =>
    }
  }

  lemma AddItemMeaning(items: seq<Json>, k: Str, x: Json, cs: bool)
    requires Distinct(Array(items), cs) && Distinct(x, cs) && SLASH !in k && IndexAsRfc(k)
    ensures Adds(AddHere(Array(items), k, x, cs), Rfc.EditHere(Meaning(Array(items), cs), k, Rfc.Add(Meaning(x, cs)), cs), cs)
  {
    if k == [DASH] {
      InsertItem(items, |items|, x, cs);
      InsertLast(items, x);
      InsertLast(MeaningItems(items, cs), Meaning(x, cs));
    } else {
      DecodeIndexExact(k);
      var i := RfcIndex(k);
      if i.Some? && i.value <= |items| {
        InsertItem(items, i.value, x, cs);
      }
    }
  }

  lemma InsertLast<T>(s: seq<T>, x: T)
    ensures Inserted(s, |s|, x) == s + [x]
  {
  }

  lemma AddMemberMeaning(ms: seq<Member<Json>>, k: Str, x: Json, cs: bool)
    requires Distinct(Object(ms), cs) && Distinct(x, cs)
    ensures Adds(AddHere(Object(ms), k, x, cs), Rfc.EditHere(Meaning(Object(ms), cs), k, Rfc.Add(Meaning(x, cs)), cs), cs)
  {
    var i := FindKey(ms, k, cs);
    var others := if i < |ms| then Without(ms, i) else ms;
    DeleteMember(ms, k, cs);
    AppendMember(others, k, x, cs);
    ReAdd(MeaningMembers(ms, cs), Fold(k, cs), Meaning(x, cs));
  }

  /** `cJSON_DeleteItemFromObject` */
  lemma DeleteMember(ms: seq<Member<Json>>, k: Str, cs: bool)
    requires Distinct(Object(ms), cs)
    ensures var i := FindKey(ms, k, cs);
            var others := if i < |ms| then Without(ms, i) else ms;
            && Distinct(Object(others), cs)
            && MeaningMembers(others, cs) == MeaningMembers(ms, cs) - {Fold(k, cs)}
  {
    LookupMeaning(ms, k, cs);
    var i := FindKey(ms, k, cs);
    if i < |ms| {
      RemoveMember(ms, i, cs);
    } else {
      NothingToDrop(MeaningMembers(ms, cs), Fold(k, cs));
    }
  }

  lemma NothingToDrop<K, V>(m: map<K, V>, k: K)
    requires k !in m
    ensures m - {k} == m
  {
  }

  lemma ReAdd<K, V>(m: map<K, V>, k: K, v: V)
    ensures (m - {k})[k := v] == m[k := v]
  {
  }

  lemma InsertItem(items: seq<Json>, i: nat, x: Json, cs: bool)
    requires Distinct(Array(items), cs) && Distinct(x, cs) && i <= |items|
    ensures Distinct(Array(Inserted(items, i, x)), cs)
    ensures MeaningItems(Inserted(items, i, x), cs) == Inserted(MeaningItems(items, cs), i, Meaning(x, cs))
  {
    InInserted(items, i, x);
    MeaningInserted(items, i, x, cs);
  }

  lemma InInserted<T>(s: seq<T>, i: nat, x: T)
    requires i <= |s|
    ensures forall y | y in Inserted(s, i, x) :: y in s || y == x
  {
  }

  lemma MeaningInserted(items: seq<Json>, i: nat, x: Json, cs: bool)
    requires i <= |items|
    ensures MeaningItems(Inserted(items, i, x), cs) == Inserted(MeaningItems(items, cs), i, Meaning(x, cs))
  {
    hide Meaning;
  }

  // ---- the operations ----

  /** The last token of a pointer as `decode_pointer_inplace` leaves it; it is `k` again exactly if `k` is stable. */
  function Unescaped(k: Str): Str {
    DecodeToken(Encode(k))
  }

  /**
   * What an operation at `path + [k]` needs to be read as the RFC reads it at arrays: tokens that meet
   * one are read as the RFC reads them, and one that edits it survives un-escaping in place.
   */
  predicate WellAddressed(v: Value, path: Rfc.Path, k: Str, cs: bool) {
    Faithful(v, path + [k], cs) && (Rfc.Get(v, path, cs).Some? && Rfc.Get(v, path, cs).value.VArray? ==> Stable(k))
  }

  /** The last token of the location that `detach_path` empties when it is asked for `path + [k]`. */
  function Taken(t: Json, path: Rfc.Path, k: Str, cs: bool): Str {
    match Locate(t, PointerOf(path), cs)
    case None => k
    case Some(pos) => TakenHere(NodeAt(t, pos), Unescaped(k))
  }

  lemma {:induction false} FaithfulPrefix(v: Value, path: Rfc.Path, q: Rfc.Path, cs: bool)
    requires Faithful(v, path + q, cs)
    ensures Faithful(v, path, cs)
    ensures Rfc.Get(v, path, cs).Some? ==> Faithful(Rfc.Get(v, path, cs).value, q, cs)
  {
    if path == [] {
      assert path + q == q;
    } else {
      assert (path + q)[1..] == path[1..] + q;
      if Rfc.ChildOf(v, path[0], cs).Some? {
        FaithfulPrefix(Rfc.ChildOf(v, path[0], cs).value, path[1..], q, cs);
      }
    }
  }

  /** The parent an operation works on, and what its meaning is. */
  lemma ParentMeaning(t: Json, path: Rfc.Path, k: Str, cs: bool)
    requires Distinct(t, cs) && WellAddressed(Meaning(t, cs), path, k, cs)
    ensures var r, v := Locate(t, PointerOf(path), cs), Rfc.Get(Meaning(t, cs), path, cs);
            && (r.Some? <==> v.Some?)
            && (r.Some? ==>
                  var p := NodeAt(t, r.value);
                  && Meaning(p, cs) == v.value && Distinct(p, cs)
                  && (p.Array? ==> Unescaped(k) == k && SLASH !in k && IndexAsRfc(k)))
  {
    FaithfulPrefix(Meaning(t, cs), path, [k], cs);
    LocateMeaning(t, path, cs);
    var r := Locate(t, PointerOf(path), cs);
    if r.Some? && NodeAt(t, r.value).Array? {
      DecodeExact(k);
      IndexAsRfcEncoded(k);
    }
  }

  lemma {:induction false} MissingParent(v: Value, path: Rfc.Path, k: Str, e: Rfc.Edit, cs: bool)
    requires Rfc.Get(v, path, cs).None?
    ensures Rfc.Apply(v, path + [k], e, cs).None? && Rfc.Get(v, path + [k], cs).None?
  {
    assert (path + [k])[1..] == path[1..] + [k];
    if Rfc.ChildOf(v, path[0], cs).Some? {
      MissingParent(Rfc.ChildOf(v, path[0], cs).value, path[1..], k, e, cs);
    }
  }

  /** An edit at the parent, put back, is the operation on the document. */
  lemma EditMeaning(t: Json, path: Rfc.Path, k: Str, e: Rfc.Edit, p': Json, cs: bool)
    requires Distinct(t, cs) && Faithful(Meaning(t, cs), path, cs)
    requires Locate(t, PointerOf(path), cs).Some? && Distinct(p', cs)
    requires Rfc.EditHere(Meaning(NodeAt(t, Locate(t, PointerOf(path), cs).value), cs), k, e, cs) == Some(Meaning(p', cs))
    ensures var t' := PutAt(t, Locate(t, PointerOf(path), cs).value, p');
            Distinct(t', cs) && Rfc.Apply(Meaning(t, cs), path + [k], e, cs) == Some(Meaning(t', cs))
  {
    LocateMeaning(t, path, cs);
    Rfc.ApplyUnder(Meaning(t, cs), path, [k], e, cs);
    PutMeaning(t, path, p', cs);
  }

  /** `detach_path` splits the pointer and edits at the parent. */
  lemma DetachAtParent(t: Json, path: Rfc.Path, k: Str, cs: bool)
    ensures Detach(t, PointerOf(path + [k]), cs) ==
            match Locate(t, PointerOf(path), cs)
            case None => None
            case Some(pos) =>
              match DetachHere(NodeAt(t, pos), Unescaped(k))
              case None => None
              case Some(d) => Some(Detached(PutAt(t, pos, d.rest), d.item))
  {
    CutPointer(path, k);
  }

  lemma AddAtParent(t: Json, path: Rfc.Path, k: Str, x: Json, cs: bool)
    ensures AddAt(t, PointerOf(path + [k]), x, cs) ==
            match Locate(t, PointerOf(path), cs)
            case None => Outcome(t, 9)
            case Some(pos) =>
              match AddHere(NodeAt(t, pos), Unescaped(k), x, cs)
              case Added(p) => Outcome(PutAt(t, pos, p), 0)
              case Failed(status) => Outcome(t, status)
  {
    CutPointer(path, k);
  }

  /** `detach_path` is the RFC's remove at the location it empties, and hands over the value that was there. */
  lemma DetachMeaning(t: Json, path: Rfc.Path, k: Str, cs: bool)
    requires Distinct(t, cs) && WellAddressed(Meaning(t, cs), path, k, cs)
    ensures var at := path + [Taken(t, path, k, cs)];
            Detaches(Detach(t, PointerOf(path + [k]), cs),
                     Rfc.Apply(Meaning(t, cs), at, Rfc.Remove, cs), Rfc.Get(Meaning(t, cs), at, cs), cs)
  {
    hide Distinct, Detach, DetachHere, Rfc.EditHere, Stable, Unescaped;
    DetachAtParent(t, path, k, cs);
    ParentMeaning(t, path, k, cs);
    var r, v, j := Locate(t, PointerOf(path), cs), Meaning(t, cs), Taken(t, path, k, cs);
    if r == None {
      MissingParent(v, path, k, Rfc.Remove, cs);
    } else {
      var p := NodeAt(t, r.value);
      DetachHereMeaning(p, Unescaped(k), cs);
      FaithfulPrefix(v, path, [k], cs);
      Rfc.ApplyUnder(v, path, [j], Rfc.Remove, cs);
      Rfc.GetConcat(v, path, [j], cs);
      GetOne(Meaning(p, cs), j, cs);
      if DetachHere(p, Unescaped(k)).Some? {
        EditMeaning(t, path, j, Rfc.Remove, DetachHere(p, Unescaped(k)).value.rest, cs);
      }
    }
  }

  lemma GetOne(v: Value, k: Str, cs: bool)
    ensures Rfc.Get(v, [k], cs) == Rfc.ChildOf(v, k, cs)
  {
    assert [k][1..] == [];
  }

  /** The outcome of a patch where the RFC prescribes the value `r`, or makes it an error. */
  ghost predicate Yields(o: Outcome, r: Option<Value>, cs: bool) {
    && o.Outcome?
    && match r
       case Some(v) => o.status == 0 && Distinct(o.doc, cs) && Meaning(o.doc, cs) == v
       case None => o.status != 0
  }

  /** Adding a value at a pointer is the RFC's add where the un-escaped token points, with status 0 exactly where the RFC allows it. */
  lemma AddMeaning(t: Json, path: Rfc.Path, k: Str, x: Json, cs: bool)
    requires Distinct(t, cs) && Distinct(x, cs) && WellAddressed(Meaning(t, cs), path, k, cs)
    ensures Yields(AddAt(t, PointerOf(path + [k]), x, cs), Rfc.Apply(Meaning(t, cs), path + [Unescaped(k)], Rfc.Add(Meaning(x, cs)), cs), cs)
  {
    hide Distinct, AddHere, Rfc.EditHere, Stable, Unescaped;
    AddAtParent(t, path, k, x, cs);
    ParentMeaning(t, path, k, cs);
    var r, v, e, j := Locate(t, PointerOf(path), cs), Meaning(t, cs), Rfc.Add(Meaning(x, cs)), Unescaped(k);
    if r == None {
      MissingParent(v, path, j, e, cs);
    } else {
      var p := NodeAt(t, r.value);
      AddHereMeaning(p, j, x, cs);
      FaithfulPrefix(v, path, [k], cs);
      Rfc.ApplyUnder(v, path, [j], e, cs);
      if AddHere(p, j, x, cs).Added? {
        EditMeaning(t, path, j, e, AddHere(p, j, x, cs).parent, cs);
      }
    }
  }
}

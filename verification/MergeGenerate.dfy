/** `generate_merge_patch` makes the merge patch of the values, for names whose two orders agree. */
module MergeGenerate {
  import opened Bytes
  import opened Json
  import opened Sorting
  import opened Comparing
  import opened PatchMeaning
  import opened DiffMeaning
  import opened Merging
  import opened MergeMeaning
  import opened MergeDiff

  // ---- names that both case modes treat alike ----

  ghost predicate KeysIn(t: Json, names: iset<Str>) {
    match t
    case Array(items) => forall x | x in items :: KeysIn(x, names)
    case Object(ms) => forall m | m in ms :: m.key in names && KeysIn(m.value, names)
    case _ => true
  }

  /** `strcmp` and the case insensitive comparison put the names in the same order. */
  ghost predicate OrdersAgree(names: iset<Str>) {
    forall j, k | j in names && k in names && Compare(j, k) < 0 :: CompareStrings(j, k, false) < 0
  }

  lemma AnyMode(j: Str, k: Str, names: iset<Str>, cs: bool)
    requires OrdersAgree(names) && j in names && k in names
    ensures CompareStrings(j, k, cs) == Compare(j, k)
    ensures Fold(j, cs) == Fold(k, cs) <==> j == k
  {
    CompareEqual(j, k);
    CompareStringsEqual(j, k, cs);
    CompareAntisymmetric(j, k);
    CompareAntisymmetric(Fold(j, cs), Fold(k, cs));
    CompareEqual(Fold(j, cs), Fold(k, cs));
  }

  lemma {:induction false} FindAnyMode(ms: seq<Member<Json>>, k: Str, names: iset<Str>, cs: bool)
    requires OrdersAgree(names) && k in names && forall m | m in ms :: m.key in names
    ensures FindKey(ms, k, cs) == FindKey(ms, k, true)
  {
    if ms != [] {
      assert ms[0] in ms;
      AnyMode(k, ms[0].key, names, cs);
      AnyMode(k, ms[0].key, names, true);
      FindAnyMode(ms[1..], k, names, cs);
    }
  }

  lemma UniqueAnyMode<T>(ms: seq<Member<T>>, names: iset<Str>, c: bool, d: bool)
    requires OrdersAgree(names) && (forall m | m in ms :: m.key in names) && UniqueKeys(ms, c)
    ensures UniqueKeys(ms, d)
  {
    forall i, j | 0 <= i < j < |ms|
      ensures Fold(ms[i].key, d) != Fold(ms[j].key, d)
    {
      assert Fold(ms[i].key, c) != Fold(ms[j].key, c);
      AnyMode(ms[i].key, ms[j].key, names, d);
    }
  }

  lemma {:induction false} DistinctAnyMode(t: Json, names: iset<Str>, c: bool, d: bool)
    requires OrdersAgree(names) && KeysIn(t, names) && Distinct(t, c)
    ensures Distinct(t, d)
  {
    match t {
      case Array(items) =>
        forall x | x in items
          ensures Distinct(x, d)
        {
          DistinctAnyMode(x, names, c, d);
        }
      case Object(ms) =>
        UniqueAnyMode(ms, names, c, d);
        forall m | m in ms
          ensures Distinct(m.value, d)
        {
          DistinctAnyMode(m.value, names, c, d);
        }
      case _ =>
    }
  }

  /** The quadratic comparison does not depend on the case mode. */
  lemma {:induction false} CompareAnyMode(a: Json, b: Json, names: iset<Str>, cs: bool)
    requires OrdersAgree(names) && KeysIn(a, names) && KeysIn(b, names)
    ensures CompareDeep(a, b, cs) == CompareDeep(a, b, true)
    decreases Size(a) + Size(b), 1
  {
    if SameType(a, b) {
      match a {
        case Array(items) =>
          if |items| == |b.items| {
            forall i | 0 <= i < |items|
              ensures CompareDeep(items[i], b.items[i], cs) == CompareDeep(items[i], b.items[i], true)
            {
              assert items[i] in items && b.items[i] in b.items;
              CompareAnyMode(items[i], b.items[i], names, cs);
            }
          }
        case Object(ms) =>
          CoversAnyMode(ms, b.members, names, cs);
          CoversAnyMode(b.members, ms, names, cs);
        case _ =>
      }
    }
  }

  lemma {:induction false} CoversAnyMode(a: seq<Member<Json>>, b: seq<Member<Json>>, names: iset<Str>, cs: bool)
    requires OrdersAgree(names) && KeysIn(Object(a), names) && KeysIn(Object(b), names)
    ensures Covers(a, b, cs) == Covers(a, b, true)
    decreases SizeMembers(a) + SizeMembers(b), 2
  {
    forall i | 0 <= i < |a|
      ensures var j := FindKey(b, a[i].key, true);
              j == FindKey(b, a[i].key, cs) && (j < |b| ==> CompareDeep(a[i].value, b[j].value, cs) == CompareDeep(a[i].value, b[j].value, true))
    {
      assert a[i] in a;
      FindAnyMode(b, a[i].key, names, cs);
      var j := FindKey(b, a[i].key, true);
      if j < |b| {
        assert b[j] in b;
        CompareAnyMode(a[i].value, b[j].value, names, cs);
      }
    }
  }

  /** Two trees mean the same in one mode exactly when they do in the other. */
  lemma MeaningAnyMode(a: Json, b: Json, names: iset<Str>, cs: bool)
    requires OrdersAgree(names) && KeysIn(a, names) && KeysIn(b, names) && Distinct(a, true) && Distinct(b, true)
    ensures Meaning(a, cs) == Meaning(b, cs) <==> Meaning(a, true) == Meaning(b, true)
  {
    DistinctAnyMode(a, names, true, cs);
    DistinctAnyMode(b, names, true, cs);
    CompareDeepExact(a, b, cs);
    CompareDeepExact(a, b, true);
    CompareAnyMode(a, b, names, cs);
  }

  lemma {:induction false} MergeAnyMode(target: Option<Json>, patch: Json, names: iset<Str>, cs: bool)
    requires OrdersAgree(names) && (target.Some? ==> KeysIn(target.value, names)) && KeysIn(patch, names)
    ensures MergePatch(target, patch, cs) == MergePatch(target, patch, true)
    ensures KeysIn(MergePatch(target, patch, true), names)
    decreases patch, 1
  {
    if patch.Object? {
      var ms := if target.Some? && target.value.Object? then target.value.members else [];
      MergeMembersAnyMode(ms, patch.members, names, cs);
    }
  }

  lemma {:induction false} MergeMembersAnyMode(ms: seq<Member<Json>>, patch: seq<Member<Json>>, names: iset<Str>, cs: bool)
    requires OrdersAgree(names) && KeysIn(Object(ms), names) && KeysIn(Object(patch), names)
    ensures MergeMembers(ms, patch, cs) == MergeMembers(ms, patch, true)
    ensures KeysIn(Object(MergeMembers(ms, patch, true)), names)
    decreases patch, 0
  {
    if patch != [] {
      var k, x := patch[0].key, patch[0].value;
      assert patch[0] in patch;
      FindAnyMode(ms, k, names, cs);
      DropKeysIn(ms, k, names);
      if x.Null? {
        MergeMembersAnyMode(Drop(ms, k, true), patch[1..], names, cs);
      } else {
        MergeAnyMode(Item(ms, k, true), x, names, cs);
        MergeMembersAnyMode(Drop(ms, k, true) + [Member(k, MergePatch(Item(ms, k, true), x, true))], patch[1..], names, cs);
      }
    }
  }

  lemma DropKeysIn(ms: seq<Member<Json>>, k: Str, names: iset<Str>)
    requires KeysIn(Object(ms), names)
    ensures KeysIn(Object(Drop(ms, k, true)), names)
    ensures Item(ms, k, true).Some? ==> KeysIn(Item(ms, k, true).value, names)
  {
    var i := FindKey(ms, k, true);
    if i < |ms| {
      InWithout(ms, i);
      assert ms[i] in ms;
    }
  }

  lemma {:induction false} SameBagSameKeys(a: Json, b: Json, names: iset<Str>)
    requires BagOf(a) == BagOf(b) && KeysIn(a, names)
    ensures KeysIn(b, names)
    decreases b
  {
    match b {
      case Array(items) =>
        forall x | x in items
          ensures KeysIn(x, names)
        {
          var i :| 0 <= i < |items| && items[i] == x;
          assert BagItems(a.items)[i] == BagItems(items)[i];
          SameBagSameKeys(a.items[i], x, names);
        }
      case Object(ms) =>
        forall m | m in ms
          ensures m.key in names && KeysIn(m.value, names)
        {
          var j :| 0 <= j < |ms| && ms[j] == m;
          assert BagMembers(a.members) == BagMembers(ms);
          var i := Partner(a.members, ms, j);
          assert a.members[i] in a.members;
          SameBagSameKeys(a.members[i].value, m.value, names);
        }
      case _ =>
    }
  }

  // ---- the generated patch ----

  /** A member list the walk can run on: in `strcmp` order, with distinct names throughout. */
  ghost predicate Tidy(ms: seq<Member<Json>>, names: iset<Str>) {
    Ascending(ms, true) && Distinct(Object(ms), true) && KeysIn(Object(ms), names)
  }

  lemma SortTidy(ms: seq<Member<Json>>, names: iset<Str>, cs: bool)
    requires OrdersAgree(names) && Distinct(Object(ms), true) && KeysIn(Object(ms), names)
    ensures Tidy(Sort(ms, cs), names)
    ensures MeaningMembers(Sort(ms, cs), true) == MeaningMembers(ms, true)
  {
    var r := Sort(ms, cs);
    UniqueAnyMode(ms, names, true, cs);
    SortUnique(ms, cs);
    SortPermutes(ms, cs);
    SortedBag(ms, cs);
    SameMembersSameMeaning(ms, r, true);
    forall i | 0 <= i < |r| - 1
      ensures CompareKeys(r[i], r[i + 1], true) < 0
    {
      assert r[i] in r && r[i + 1] in r;
      AnyMode(r[i].key, r[i + 1].key, names, cs);
      AnyMode(r[i].key, r[i + 1].key, names, true);
    }
  }

  lemma TidyTail(ms: seq<Member<Json>>, names: iset<Str>)
    requires ms != [] && Tidy(ms, names)
    ensures Tidy(ms[1..], names) && ms[0].key in names && Distinct(ms[0].value, true) && KeysIn(ms[0].value, names)
    ensures Fold(ms[0].key, true) !in MeaningMembers(ms[1..], true)
  {
    LeastName(ms, true);
    UniqueTail(ms, true);
    assert ms[0] in ms;
    assert forall m | m in ms[1..] :: m in ms;
  }

  /** A patch that means the given value, or none for none. */
  ghost predicate MakesPatch(p: Option<Json>, d: Option<Value>, names: iset<Str>) {
    match p
    case None => d.None?
    case Some(x) => Distinct(x, true) && KeysIn(x, names) && d == Some(Meaning(x, true))
  }

  /** A list of patch members that means the given members. */
  ghost predicate MakesMembers(r: seq<Member<Json>>, d: map<Str, Value>, names: iset<Str>) {
    Distinct(Object(r), true) && KeysIn(Object(r), names) && MeaningMembers(r, true) == d
  }

  lemma Prepend(m: Member<Json>, r: seq<Member<Json>>, d: map<Str, Value>, names: iset<Str>)
    requires MakesMembers(r, d, names) && m.key !in d
    requires m.key in names && Distinct(m.value, true) && KeysIn(m.value, names)
    ensures MakesMembers([m] + r, d[m.key := Meaning(m.value, true)], names)
  {
    var r' := [m] + r;
    assert r'[1..] == r;
    forall i, j | 0 <= i < j < |r'|
      ensures Fold(r'[i].key, true) != Fold(r'[j].key, true)
    {
      MemberMeaning(r, j - 1, true);
      if i > 0 { assert Fold(r[i - 1].key, true) != Fold(r[j - 1].key, true); }
    }
    forall x | x in r'
      ensures x.key in names && Distinct(x.value, true) && KeysIn(x.value, names)
    {
      assert x == m || x in r;
    }
  }

  /** How the patch members grow with a member of the old object, of the new one, or of both. */
  lemma DiffDrops(ma: map<Str, Value>, mb: map<Str, Value>, k: Str, x: Value)
    requires k !in ma && k !in mb
    ensures DiffMembers(ma[k := x], mb) == DiffMembers(ma, mb)[k := VNull] && k !in DiffMembers(ma, mb)
  {
    hide DiffMembers, Diff;
    DiffAt(ma, mb);
    DiffAt(ma[k := x], mb);
  }

  lemma DiffAdds(ma: map<Str, Value>, mb: map<Str, Value>, k: Str, y: Value)
    requires k !in ma && k !in mb
    ensures DiffMembers(ma, mb[k := y]) == DiffMembers(ma, mb)[k := y] && k !in DiffMembers(ma, mb)
  {
    hide DiffMembers, Diff;
    DiffAt(ma, mb);
    DiffAt(ma, mb[k := y]);
  }

  lemma DiffChanges(ma: map<Str, Value>, mb: map<Str, Value>, k: Str, x: Value, y: Value)
    requires k !in ma && k !in mb
    ensures k !in DiffMembers(ma, mb)
    ensures DiffMembers(ma[k := x], mb[k := y]) ==
            if x == y || Diff(x, y).None? then DiffMembers(ma, mb) else DiffMembers(ma, mb)[k := Diff(x, y).value]
  {
    hide DiffMembers, Diff;
    DiffAt(ma, mb);
    DiffAt(ma[k := x], mb[k := y]);
  }

  /** A member of both objects: nothing when they mean the same, otherwise the patch between them. */
  lemma {:induction false} BothMeaning(bound: nat, f: Json, t: Json, names: iset<Str>, cs: bool)
    requires OrdersAgree(names) && Size(f) <= bound
    requires Distinct(f, true) && Distinct(t, true) && KeysIn(f, names) && KeysIn(t, names)
    ensures var r := CompareJson(f, t, cs);
            && Size(r.a) <= bound
            && (r.same <==> Meaning(f, true) == Meaning(t, true))
            && MakesPatch(GenerateMerge(r.a, r.b, false), Diff(Meaning(f, true), Meaning(t, true)), names)
    decreases bound, 2
  {
    var r := CompareJson(f, t, cs);
    CompareKeepsSize(f, t, cs);
    CompareOnlyReorders(f, t, cs);
    DistinctAnyMode(f, names, true, cs);
    DistinctAnyMode(t, names, true, cs);
    CompareJsonExact(f, t, cs);
    MeaningAnyMode(f, t, names, cs);
    SameBagSameMeaning(f, r.a, true);
    SameBagSameMeaning(t, r.b, true);
    SameBagSameKeys(f, r.a, names);
    SameBagSameKeys(t, r.b, names);
    GenerateMeaning(r.a, r.b, names, false);
  }

  /** The generated patch is the merge patch between what the trees mean. */
  lemma {:induction false} GenerateMeaning(a: Json, b: Json, names: iset<Str>, cs: bool)
    requires OrdersAgree(names)
    requires Distinct(a, true) && Distinct(b, true) && KeysIn(a, names) && KeysIn(b, names)
    ensures MakesPatch(GenerateMerge(a, b, cs), Diff(Meaning(a, true), Meaning(b, true)), names)
    decreases Size(a), 1
  {
    if a.Object? && b.Object? { GenerateObject(a.members, b.members, names, cs); }
  }

  lemma {:induction false} GenerateObject(a: seq<Member<Json>>, b: seq<Member<Json>>, names: iset<Str>, cs: bool)
    requires OrdersAgree(names)
    requires Distinct(Object(a), true) && Distinct(Object(b), true) && KeysIn(Object(a), names) && KeysIn(Object(b), names)
    ensures MakesPatch(GenerateMerge(Object(a), Object(b), cs), Diff(VObject(MeaningMembers(a, true)), VObject(MeaningMembers(b, true))), names)
    decreases Size(Object(a)), 0
  {
    hide MergeWalk, Sort, DiffMembers, MeaningMembers, UniqueKeys, MakesPatch, MakesMembers, KeysIn;
    var fs, ts := Sort(a, cs), Sort(b, cs);
    SortTidy(a, names, cs);
    SortTidy(b, names, cs);
    SortedBag(a, cs);
    WalkMeaning(SizeMembers(a), fs, ts, names, cs);
    MembersMakePatch(MergeWalk(SizeMembers(a), fs, ts, cs), MeaningMembers(a, true), MeaningMembers(b, true), names);
  }

  lemma MembersMakePatch(r: seq<Member<Json>>, ma: map<Str, Value>, mb: map<Str, Value>, names: iset<Str>)
    requires MakesMembers(r, DiffMembers(ma, mb), names)
    ensures MakesPatch(if r == [] then None else Some(Object(r)), Diff(VObject(ma), VObject(mb)), names)
  {
    hide Diff;
    DiffAt(ma, mb);
    if r != [] { OwnName(r, true); }
    if Diff(VObject(ma), VObject(mb)).Some? { DiffIsObject(ma, mb); }
  }

  lemma DiffIsObject(ma: map<Str, Value>, mb: map<Str, Value>)
    ensures Diff(VObject(ma), VObject(mb)).Some? ==> Diff(VObject(ma), VObject(mb)) == Some(VObject(DiffMembers(ma, mb)))
  {
  }

  lemma {:induction false} WalkMeaning(bound: nat, from: seq<Member<Json>>, to: seq<Member<Json>>, names: iset<Str>, cs: bool)
    requires OrdersAgree(names) && Tidy(from, names) && Tidy(to, names)
    requires forall m | m in from :: Size(m.value) <= bound
    ensures MakesMembers(MergeWalk(bound, from, to, cs), DiffMembers(MeaningMembers(from, true), MeaningMembers(to, true)), names)
    decreases bound, 3 + |from| + |to|
  {
    hide MakesMembers, DiffMembers, GenerateMerge, CompareJson;
    if from == [] && to == [] {
      NoMembers(names);
    } else {
      var diff := if from == [] then 1 else if to == [] then -1 else Compare(from[0].key, to[0].key);
      if from != [] { TidyTail(from, names); }
      if to != [] { TidyTail(to, names); }
      if diff < 0 {
        WalkMeaning(bound, from[1..], to, names, cs);
        NotBelowFirst(to, from[0], true);
        WalkDrop(MergeWalk(bound, from[1..], to, cs), from, to, names);
      } else if diff > 0 {
        if from != [] { CompareAntisymmetric(from[0].key, to[0].key); }
        WalkMeaning(bound, from, to[1..], names, cs);
        NotBelowFirst(from, to[0], true);
        WalkNew(MergeWalk(bound, from, to[1..], cs), from, to, names);
      } else {
        CompareEqual(from[0].key, to[0].key);
        assert from[0] in from;
        WalkMeaning(bound, from[1..], to[1..], names, cs);
        BothMeaning(bound, from[0].value, to[0].value, names, cs);
        WalkBoth(MergeWalk(bound, from[1..], to[1..], cs), from, to, names, cs);
      }
    }
  }

  lemma NoMembers(names: iset<Str>)
    ensures MakesMembers([], DiffMembers(map[], map[]), names)
  {
  }

  lemma WalkDrop(r: seq<Member<Json>>, from: seq<Member<Json>>, to: seq<Member<Json>>, names: iset<Str>)
    requires from != [] && Tidy(from, names) && from[0].key !in MeaningMembers(to, true)
    requires MakesMembers(r, DiffMembers(MeaningMembers(from[1..], true), MeaningMembers(to, true)), names)
    ensures MakesMembers([Member(from[0].key, Null)] + r, DiffMembers(MeaningMembers(from, true), MeaningMembers(to, true)), names)
  {
    hide MakesMembers, DiffMembers;
    var k, ma, mb := from[0].key, MeaningMembers(from[1..], true), MeaningMembers(to, true);
    TidyTail(from, names);
    DiffDrops(ma, mb, k, Meaning(from[0].value, true));
    Prepend(Member(k, Null), r, DiffMembers(ma, mb), names);
  }

  lemma WalkNew(r: seq<Member<Json>>, from: seq<Member<Json>>, to: seq<Member<Json>>, names: iset<Str>)
    requires to != [] && Tidy(to, names) && to[0].key !in MeaningMembers(from, true)
    requires MakesMembers(r, DiffMembers(MeaningMembers(from, true), MeaningMembers(to[1..], true)), names)
    ensures MakesMembers([to[0]] + r, DiffMembers(MeaningMembers(from, true), MeaningMembers(to, true)), names)
  {
    hide MakesMembers, DiffMembers;
    var ma, mb := MeaningMembers(from, true), MeaningMembers(to[1..], true);
    TidyTail(to, names);
    DiffAdds(ma, mb, to[0].key, Meaning(to[0].value, true));
    Prepend(to[0], r, DiffMembers(ma, mb), names);
  }

  lemma WalkBoth(rest: seq<Member<Json>>, from: seq<Member<Json>>, to: seq<Member<Json>>, names: iset<Str>, cs: bool)
    requires from != [] && to != [] && from[0].key == to[0].key && Tidy(from, names) && Tidy(to, names)
    requires MakesMembers(rest, DiffMembers(MeaningMembers(from[1..], true), MeaningMembers(to[1..], true)), names)
    requires var r := CompareJson(from[0].value, to[0].value, cs);
             && (r.same <==> Meaning(from[0].value, true) == Meaning(to[0].value, true))
             && MakesPatch(GenerateMerge(r.a, r.b, false), Diff(Meaning(from[0].value, true), Meaning(to[0].value, true)), names)
    ensures var r := CompareJson(from[0].value, to[0].value, cs);
            var below := if r.same then None else GenerateMerge(r.a, r.b, false);
            MakesMembers((match below case Some(p) => [Member(to[0].key, p)] case None => []) + rest,
                         DiffMembers(MeaningMembers(from, true), MeaningMembers(to, true)), names)
  {
    hide MakesMembers, DiffMembers, GenerateMerge, CompareJson, Diff;
    var r := CompareJson(from[0].value, to[0].value, cs);
    var below := if r.same then None else GenerateMerge(r.a, r.b, false);
    var ma, mb := MeaningMembers(from[1..], true), MeaningMembers(to[1..], true);
    TidyTail(from, names);
    TidyTail(to, names);
    DiffChanges(ma, mb, to[0].key, Meaning(from[0].value, true), Meaning(to[0].value, true));
    if below.Some? {
      Prepend(Member(to[0].key, below.value), rest, DiffMembers(ma, mb), names);
    } else {
      assert [] + rest == rest;
    }
  }

  // ---- the round trip ----

  /** The generated merge patch, merged into a copy of `a`, leaves `b` up to member order; without one they are equal. */
  ghost predicate MergeRoundTrips(a: Json, b: Json, cs: bool) {
    match GenerateMerge(a, b, cs)
    case None => Meaning(a, true) == Meaning(b, true)
    case Some(p) =>
      var r := MergePatch(Some(a), p, cs);
      Distinct(r, true) && Meaning(r, true) == Meaning(b, true)
  }

  /**
   * For names that both case modes order alike: there is no patch exactly between equal objects, and
   * otherwise merging it gives back `b` exactly when the difference can be expressed without null.
   */
  lemma MergeRoundTrip(a: Json, b: Json, names: iset<Str>, cs: bool)
    requires OrdersAgree(names)
    requires Distinct(a, true) && Distinct(b, true) && KeysIn(a, names) && KeysIn(b, names)
    ensures GenerateMerge(a, b, cs).None? <==> a.Object? && b.Object? && Meaning(a, true) == Meaning(b, true)
    ensures GenerateMerge(a, b, cs).Some? ==>
              (MergeRoundTrips(a, b, cs) <==> Recoverable(Meaning(a, true), Meaning(b, true)))
  {
    GenerateMeaning(a, b, names, cs);
    NoDiff(Meaning(a, true), Meaning(b, true));
    var p := GenerateMerge(a, b, cs);
    if p.Some? {
      MergeAnyMode(Some(a), p.value, names, cs);
      MergeIsRfc(Some(a), p.value, true);
      MergeDiffExact(Meaning(a, true), Meaning(b, true));
    }
  }

  // ---- the condition on the names is necessary ----

  /** Everything expressible makes the round trip, for trees over these names that are distinct in the case mode. */
  ghost predicate AllMergeRoundTrip(names: iset<Str>, cs: bool) {
    forall a, b | Distinct(a, cs) && Distinct(b, cs) && KeysIn(a, names) && KeysIn(b, names)
                  && Recoverable(Meaning(a, true), Meaning(b, true)) :: MergeRoundTrips(a, b, cs)
  }

  lemma FlagObject(j: Str)
    ensures MeaningMembers([Member(j, True)], true) == map[j := VTrue]
    ensures Distinct(Object([Member(j, True)]), false)
  {
  }

  lemma SortPair(j: Str, k: Str)
    requires CompareStrings(j, k, false) >= 0
    ensures Sort([Member(j, True), Member(k, True)], false) == [Member(k, True), Member(j, True)]
    ensures Sort([Member(j, True)], false) == [Member(j, True)]
  {
    var mj: Member<Json>, mk: Member<Json> := Member(j, True), Member(k, True);
    assert [mj, mk][..1] == [mj] && [mj, mk][1..] == [mk] && [mk][1..] == [];
    assert Merge([mj], [mk], false) == [mk] + Merge([mj], [], false);
  }

  lemma PatchOfWalk(a: Json, b: Json, cs: bool)
    requires a.Object? && b.Object?
    ensures (forall m | m in Sort(a.members, cs) :: Size(m.value) <= SizeMembers(a.members))
    ensures var r := MergeWalk(SizeMembers(a.members), Sort(a.members, cs), Sort(b.members, cs), cs);
            GenerateMerge(a, b, cs) == if r == [] then None else Some(Object(r))
  {
    SortedBag(a.members, cs);
  }

  /** The walk meets `k` first and adds `j`; then both old members look removed. */
  lemma WrongOrderPatch(j: Str, k: Str)
    requires Compare(j, k) < 0 && CompareStrings(j, k, false) >= 0
    ensures GenerateMerge(Object([Member(j, True), Member(k, True)]), Object([Member(j, True)]), false) ==
            Some(Object([Member(j, True), Member(k, Null), Member(j, Null)]))
  {
    var mj: Member<Json>, mk: Member<Json> := Member(j, True), Member(k, True);
    var bound := SizeMembers([mj, mk]);
    SortPair(j, k);
    CompareAntisymmetric(j, k);
    assert [mj][1..] == [] && [mk, mj][1..] == [mj];
    assert MergeWalk(bound, [mj], [], false) == [Member(j, Null)] + MergeWalk(bound, [], [], false);
    assert MergeWalk(bound, [mk, mj], [], false) == [Member(k, Null)] + [Member(j, Null)];
    assert MergeWalk(bound, [mk, mj], [mj], false) == [mj] + [Member(k, Null), Member(j, Null)];
    assert [mj] + [Member(k, Null), Member(j, Null)] == [mj, Member(k, Null), Member(j, Null)];
    PatchOfWalk(Object([mj, mk]), Object([mj]), false);
  }

  /** The patch between two names that fold to the same text, the greater of which is old. */
  lemma TwinNamePatch(j: Str, k: Str)
    requires Compare(j, k) < 0
    ensures GenerateMerge(Object([Member(k, True)]), Object([Member(j, True)]), false) ==
            Some(Object([Member(j, True), Member(k, Null)]))
  {
    var mj: Member<Json>, mk: Member<Json> := Member(j, True), Member(k, True);
    var bound := SizeMembers([mk]);
    CompareAntisymmetric(j, k);
    assert Sort([mj], false) == [mj] && Sort([mk], false) == [mk];
    assert [mj][1..] == [] && [mk][1..] == [];
    assert MergeWalk(bound, [mk], [], false) == [Member(k, Null)] + MergeWalk(bound, [], [], false);
    assert MergeWalk(bound, [mk], [mj], false) == [mj] + [Member(k, Null)];
    assert [mj] + [Member(k, Null)] == [mj, Member(k, Null)];
    PatchOfWalk(Object([mk]), Object([mj]), false);
  }

  /** Merging the last member of a patch when it is null leaves nothing under that name. */
  lemma LastNull(ms: seq<Member<Json>>, k: Str, cs: bool)
    ensures MergeMembers(ms, [Member(k, Null)], cs) == Drop(ms, k, cs)
  {
    assert [Member(k, Null)][1..] == [];
  }

  /** A name whose two orders disagree breaks the round trip. */
  lemma DisorderBreaks(j: Str, k: Str, names: iset<Str>)
    requires j in names && k in names && Compare(j, k) < 0 && CompareStrings(j, k, false) >= 0
    ensures !AllMergeRoundTrip(names, false)
  {
    hide GenerateMerge, MergePatch, Meaning, Recoverable, MergeRoundTrips;
    CompareStringsEqual(j, k, false);
    var mj, mk := Member(j, True), Member(k, True);
    var twins := Fold(j, false) == Fold(k, false);
    var a, b := Object(if twins then [mk] else [mj, mk]), Object([mj]);
    Recovers(a, j);
    if twins {
      TwinNamePatch(j, k);
      TwinNameMerge(j, k);
    } else {
      WrongOrderPatch(j, k);
      WrongOrderMerge(j, k, false);
    }
    EmptyDiffers(j);
    NotRoundTrip(a, b);
    FlagsFit(j, k, names);
  }

  lemma FlagsFit(j: Str, k: Str, names: iset<Str>)
    requires j in names && k in names
    ensures KeysIn(Object([Member(j, True)]), names) && Distinct(Object([Member(j, True)]), false)
    ensures KeysIn(Object([Member(k, True)]), names) && Distinct(Object([Member(k, True)]), false)
    ensures Fold(j, false) != Fold(k, false) ==>
              var a := Object([Member(j, True), Member(k, True)]); KeysIn(a, names) && Distinct(a, false)
  {
  }

  lemma Recovers(a: Json, j: Str)
    ensures Recoverable(Meaning(a, true), Meaning(Object([Member(j, True)]), true))
  {
    hide Recoverable;
    FlagObject(j);
    RecoverFlag(Meaning(a, true), j);
  }

  lemma NotRoundTrip(a: Json, b: Json)
    requires GenerateMerge(a, b, false).Some? && MergePatch(Some(a), GenerateMerge(a, b, false).value, false) == Object([])
    requires Meaning(Object([]), true) != Meaning(b, true)
    ensures !MergeRoundTrips(a, b, false)
  {
    hide GenerateMerge, MergePatch, Meaning;
  }

  lemma RecoverFlag(a: Value, j: Str)
    ensures Recoverable(a, VObject(map[j := VTrue]))
  {
  }

  lemma EmptyDiffers(j: Str)
    ensures Meaning(Object([]), true) != Meaning(Object([Member(j, True)]), true)
  {
    FlagObject(j);
    assert j in MeaningMembers([Member(j, True)], true);
  }

  lemma TwinNameMerge(j: Str, k: Str)
    requires Fold(j, false) == Fold(k, false)
    ensures MergePatch(Some(Object([Member(k, True)])), Object([Member(j, True), Member(k, Null)]), false) == Object([])
  {
    var mj, mk := Member(j, True), Member(k, True);
    assert [mj, Member(k, Null)][1..] == [Member(k, Null)];
    FirstOfName([mk], j, 0, false);
    assert Drop([mk], j, false) == [] && [] + [mj] == [mj];
    assert MergeMembers([mk], [mj, Member(k, Null)], false) == MergeMembers([mj], [Member(k, Null)], false);
    FirstOfName([mj], k, 0, false);
    LastNull([mj], k, false);
    assert Drop([mj], k, false) == [];
  }

  lemma WrongOrderMerge(j: Str, k: Str, cs: bool)
    requires Fold(j, cs) != Fold(k, cs)
    ensures MergePatch(Some(Object([Member(j, True), Member(k, True)])),
                       Object([Member(j, True), Member(k, Null), Member(j, Null)]), cs) == Object([])
  {
    hide MergeMembers, Drop, Fold;
    var mj, mk, nj, nk := Member(j, True), Member(k, True), Member(j, Null), Member(k, Null);
    DropFirst(mj, [mk], cs);
    DropFirst(mk, [mj], cs);
    DropFirst(mj, [], cs);
    assert [mj, mk] == [mj] + [mk] && [mk, mj] == [mk] + [mj] && [mj] == [mj] + [];
    MergeFlag([mj, mk], j, [nk, nj], cs);
    assert [mj, nk, nj] == [mj] + [nk, nj];
    MergeNull([mk, mj], k, [nj], cs);
    assert [nk, nj] == [nk] + [nj];
    LastNull([mj], j, cs);
  }

  lemma DropFirst(m: Member<Json>, rest: seq<Member<Json>>, cs: bool)
    ensures Drop([m] + rest, m.key, cs) == rest
  {
    FirstOfName([m] + rest, m.key, 0, cs);
  }

  lemma MergeFlag(ms: seq<Member<Json>>, j: Str, rest: seq<Member<Json>>, cs: bool)
    ensures MergeMembers(ms, [Member(j, True)] + rest, cs) == MergeMembers(Drop(ms, j, cs) + [Member(j, True)], rest, cs)
  {
    assert ([Member(j, True)] + rest)[1..] == rest;
  }

  lemma MergeNull(ms: seq<Member<Json>>, k: Str, rest: seq<Member<Json>>, cs: bool)
    ensures MergeMembers(ms, [Member(k, Null)] + rest, cs) == MergeMembers(Drop(ms, k, cs), rest, cs)
  {
    assert ([Member(k, Null)] + rest)[1..] == rest;
  }

  // ---- and so it is case sensitively, one object deeper, where the walk sorts without case ----

  lemma CompareOne(j: Str, k: Str)
    requires Compare(j, k) < 0
    ensures var a, b := Object([Member(j, True), Member(k, True)]), Object([Member(j, True)]);
            CompareJson(a, b, true) == Compared(false, a, b)
  {
    var mj: Member<Json>, mk: Member<Json> := Member(j, True), Member(k, True);
    var a, b := Object([mj, mk]), Object([mj]);
    assert Sort([mj, mk], true) == [mj, mk] && Sort([mj], true) == [mj];
    CompareEqual(j, j);
    assert [mj, mk][1..] == [mk] && [mj][1..] == [];
    assert CompareMembers(a, [mk], [], true) == Compared(false, [mk], []);
    assert CompareMembers(a, [mj, mk], [mj], true) == Compared(false, [mj] + [mk], [mj] + []);
    assert [mj] + [mk] == [mj, mk] && [mj] + [] == [mj];
  }

  lemma PatchBelow(j: Str, a: Json, b: Json, p: Json)
    requires CompareJson(a, b, true) == Compared(false, a, b) && GenerateMerge(a, b, false) == Some(p)
    ensures GenerateMerge(Object([Member(j, a)]), Object([Member(j, b)]), true) == Some(Object([Member(j, p)]))
  {
    hide CompareJson, GenerateMerge, Size;
    var ma, mb := Member(j, a), Member(j, b);
    var bound := SizeMembers([ma]);
    CompareEqual(j, j);
    assert Sort([ma], true) == [ma] && Sort([mb], true) == [mb];
    assert [ma][1..] == [] && [mb][1..] == [];
    PatchOfWalk(Object([ma]), Object([mb]), true);
    assert MergeWalk(bound, [], [], true) == [];
    assert MergeWalk(bound, [ma], [mb], true) == [Member(j, p)] + [];
    assert [Member(j, p)] + [] == [Member(j, p)];
  }

  lemma MergeBelow(j: Str, a: Json, p: Json, cs: bool)
    requires !p.Null?
    ensures MergePatch(Some(Object([Member(j, a)])), Object([Member(j, p)]), cs) == Object([Member(j, MergePatch(Some(a), p, cs))])
  {
    FirstOfName([Member(j, a)], j, 0, cs);
    var r := Member(j, MergePatch(Some(a), p, cs));
    assert [Member(j, p)][1..] == [];
    assert Drop([Member(j, a)], j, cs) == [] && [] + [r] == [r];
    assert Item([Member(j, a)], j, cs) == Some(a);
    assert MergeMembers([Member(j, a)], [Member(j, p)], cs) == MergeMembers([r], [], cs);
  }

  lemma OneBelow(j: Str, x: Json)
    ensures Meaning(Object([Member(j, x)]), true) == VObject(map[j := Meaning(x, true)])
  {
    assert [Member(j, x)][1..] == [];
    assert MeaningMembers([], true) == map[];
  }

  lemma RecoversBelow(j: Str, k: Str)
    ensures Recoverable(Meaning(Object([Member(j, Object([Member(j, True), Member(k, True)]))]), true),
                        Meaning(Object([Member(j, Object([Member(j, True)]))]), true))
  {
    var a, b := Object([Member(j, True), Member(k, True)]), Object([Member(j, True)]);
    hide Meaning;
    OneBelow(j, a);
    OneBelow(j, b);
    OneBelow(j, True);
    Recovers(a, j);
    RecoverOne(j, Meaning(a, true), Meaning(b, true));
  }

  lemma RecoverOne(j: Str, v: Value, w: Value)
    requires Recoverable(v, w) && w.VObject?
    ensures Recoverable(VObject(map[j := v]), VObject(map[j := w]))
  {
  }

  lemma DisorderBreaksBelow(j: Str, k: Str, names: iset<Str>)
    requires j in names && k in names && Compare(j, k) < 0 && CompareStrings(j, k, false) >= 0
    ensures !AllMergeRoundTrip(names, true)
  {
    hide GenerateMerge, MergePatch, Meaning, Recoverable, MergeRoundTrips, CompareJson, CompareStrings;
    CompareEqual(j, k);
    var a, b, p := Object([Member(j, True), Member(k, True)]), Object([Member(j, True)]), Object([Member(j, True), Member(k, Null), Member(j, Null)]);
    var c, d := Object([Member(j, a)]), Object([Member(j, b)]);
    CompareOne(j, k);
    WrongOrderPatch(j, k);
    PatchBelow(j, a, b, p);
    MergeBelow(j, a, p, true);
    WrongOrderMerge(j, k, true);
    OneBelow(j, Object([]));
    OneBelow(j, b);
    EmptyDiffers(j);
    assert map[j := Meaning(Object([]), true)][j] != map[j := Meaning(b, true)][j];
    BrokenBelow(c, d, Object([Member(j, p)]), Object([Member(j, Object([]))]));
    RecoversBelow(j, k);
    FitBelow(j, a, names);
    FitBelow(j, b, names);
  }

  lemma FitBelow(j: Str, x: Json, names: iset<Str>)
    requires j in names && x.Object? && UniqueKeys(x.members, true)
    requires forall m | m in x.members :: m.key in names && m.value == True
    ensures Distinct(Object([Member(j, x)]), true) && KeysIn(Object([Member(j, x)]), names)
  {
    assert Distinct(x, true) && KeysIn(x, names);
  }

  lemma BrokenBelow(a: Json, b: Json, p: Json, r: Json)
    requires GenerateMerge(a, b, true) == Some(p) && MergePatch(Some(a), p, true) == r && Meaning(r, true) != Meaning(b, true)
    ensures !MergeRoundTrips(a, b, true)
  {
    hide GenerateMerge, MergePatch, Meaning;
  }

  /**
   * Everything expressible makes the round trip, in either case mode, exactly when the walk, which
   * compares with `strcmp`, meets the names in the order the case insensitive sort gives them.
   */
  lemma MergeRoundTripExact(names: iset<Str>, cs: bool)
    ensures AllMergeRoundTrip(names, cs) <==> OrdersAgree(names)
  {
    if OrdersAgree(names) {
      forall a, b | Distinct(a, cs) && Distinct(b, cs) && KeysIn(a, names) && KeysIn(b, names)
                    && Recoverable(Meaning(a, true), Meaning(b, true))
        ensures MergeRoundTrips(a, b, cs)
      {
        DistinctAnyMode(a, names, cs, true);
        DistinctAnyMode(b, names, cs, true);
        MergeRoundTrip(a, b, names, cs);
      }
    }
    if AllMergeRoundTrip(names, cs) {
      forall j, k | j in names && k in names && Compare(j, k) < 0
        ensures CompareStrings(j, k, false) < 0
      {
        if CompareStrings(j, k, false) >= 0 {
          if cs { DisorderBreaksBelow(j, k, names); } else { DisorderBreaks(j, k, names); }
        }
      }
    }
  }
}

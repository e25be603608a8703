/** `merge_patch` is the MergePatch function of RFC 7396, and merging twice is merging once. */
module MergeMeaning {
  import opened Bytes
  import opened Json
  import opened PatchMeaning
  import opened Merging

  function MeaningOf(t: Option<Json>, cs: bool): Option<Value> {
    match t case None => None case Some(x) => Some(Meaning(x, cs))
  }

  // ---- merge_patch computes the RFC's function ----

  /** The RFC's result on the maps of two objects. */
  function RfcMembers(m: map<Str, Value>, pm: map<Str, Value>): map<Str, Value> {
    RfcMerge(Some(VObject(m)), VObject(pm)).members
  }

  lemma RfcMembersAt(m: map<Str, Value>, pm: map<Str, Value>)
    ensures forall k :: k in RfcMembers(m, pm) <==> (if k in pm then pm[k] != VNull else k in m)
    ensures forall k | k in RfcMembers(m, pm) :: RfcMembers(m, pm)[k] == if k in pm then RfcMerge(Find(m, k), pm[k]) else m[k]
  {
  }

  /** One member of the patch first, then the others. */
  lemma RfcMembersStep(m: map<Str, Value>, pm: map<Str, Value>, k: Str, x: Value)
    requires k !in pm
    ensures var m' := if x == VNull then m - {k} else m[k := RfcMerge(Find(m, k), x)];
            RfcMembers(m', pm) == RfcMembers(m, pm[k := x])
  {
    hide RfcMembers;
    var m' := if x == VNull then m - {k} else m[k := RfcMerge(Find(m, k), x)];
    RfcMembersAt(m', pm);
    RfcMembersAt(m, pm[k := x]);
    forall j
      ensures j in RfcMembers(m', pm) <==> j in RfcMembers(m, pm[k := x])
      ensures j in RfcMembers(m', pm) ==> RfcMembers(m', pm)[j] == RfcMembers(m, pm[k := x])[j]
    {
      assert j != k ==> Find(m', j) == Find(m, j);
    }
  }

  lemma RfcNoPatch(m: map<Str, Value>)
    ensures RfcMembers(m, map[]) == m
  {
    RfcMembersAt(m, map[]);
  }

  lemma NullMeaning(x: Json, cs: bool)
    ensures x.Null? <==> Meaning(x, cs) == VNull
  {
  }

  lemma UniqueTail<T>(ms: seq<Member<T>>, cs: bool)
    requires ms != [] && UniqueKeys(ms, cs)
    ensures UniqueKeys(ms[1..], cs)
    ensures forall i | 0 <= i < |ms| - 1 :: Fold(ms[1..][i].key, cs) != Fold(ms[0].key, cs)
  {
    forall i, j | 0 <= i < j < |ms| - 1
      ensures Fold(ms[1..][i].key, cs) != Fold(ms[1..][j].key, cs)
    {
      assert Fold(ms[i + 1].key, cs) != Fold(ms[j + 1].key, cs);
    }
  }

  lemma ItemMeaning(ms: seq<Member<Json>>, k: Str, cs: bool)
    requires Distinct(Object(ms), cs)
    ensures Find(MeaningMembers(ms, cs), Fold(k, cs)) == MeaningOf(Item(ms, k, cs), cs)
    ensures Item(ms, k, cs).Some? ==> Distinct(Item(ms, k, cs).value, cs)
  {
    LookupMeaning(ms, k, cs);
    var i := FindKey(ms, k, cs);
    if i < |ms| { assert ms[i] in ms; }
  }

  /** `merge_patch` on trees with distinct names is the RFC's MergePatch on what they mean. */
  lemma {:induction false} MergeIsRfc(target: Option<Json>, patch: Json, cs: bool)
    requires (target.Some? ==> Distinct(target.value, cs)) && Distinct(patch, cs)
    ensures Distinct(MergePatch(target, patch, cs), cs)
    ensures Meaning(MergePatch(target, patch, cs), cs) == RfcMerge(MeaningOf(target, cs), Meaning(patch, cs))
    decreases patch, 1
  {
    if patch.Object? {
      var ms := if target.Some? && target.value.Object? then target.value.members else [];
      MergeMembersIsRfc(ms, patch.members, cs);
    }
  }

  lemma {:induction false} MergeMembersIsRfc(ms: seq<Member<Json>>, patch: seq<Member<Json>>, cs: bool)
    requires Distinct(Object(ms), cs) && Distinct(Object(patch), cs)
    ensures var r := MergeMembers(ms, patch, cs);
            && Distinct(Object(r), cs)
            && MeaningMembers(r, cs) == RfcMembers(MeaningMembers(ms, cs), MeaningMembers(patch, cs))
    decreases patch, 0
  {
    hide RfcMembers;
    if patch == [] {
      RfcNoPatch(MeaningMembers(ms, cs));
    } else {
      var k, x := patch[0].key, patch[0].value;
      assert patch[0] in patch;
      UniqueTail(patch, cs);
      FreshName(patch[1..], Fold(k, cs), cs);
      DeleteMember(ms, k, cs);
      ItemMeaning(ms, k, cs);
      NullMeaning(x, cs);
      RfcMembersStep(MeaningMembers(ms, cs), MeaningMembers(patch[1..], cs), Fold(k, cs), Meaning(x, cs));
      if x.Null? {
        MergeMembersIsRfc(Drop(ms, k, cs), patch[1..], cs);
      } else {
        MergeIsRfc(Item(ms, k, cs), x, cs);
        var y := MergePatch(Item(ms, k, cs), x, cs);
        AppendMember(Drop(ms, k, cs), k, y, cs);
        ReAdd(MeaningMembers(ms, cs), Fold(k, cs), Meaning(y, cs));
        MergeMembersIsRfc(Drop(ms, k, cs) + [Member(k, y)], patch[1..], cs);
      }
    }
  }

  // ---- merging twice ----

  /** The members whose names the patch does not mention. */
  function Others(ms: seq<Member<Json>>, patch: seq<Member<Json>>, cs: bool): seq<Member<Json>> {
    if ms == [] then []
    else (if Mentions(patch, ms[0].key, cs) then [] else [ms[0]]) + Others(ms[1..], patch, cs)
  }

  /** What the patch makes of the members it mentions, in its own order. */
  function News(ms: seq<Member<Json>>, patch: seq<Member<Json>>, cs: bool): seq<Member<Json>> {
    if patch == [] then []
    else
      var (k, x) := (patch[0].key, patch[0].value);
      (if x.Null? then [] else [Member(k, MergePatch(Item(ms, k, cs), x, cs))]) + News(ms, patch[1..], cs)
  }

  lemma {:induction false} OthersConcat(a: seq<Member<Json>>, b: seq<Member<Json>>, patch: seq<Member<Json>>, cs: bool)
    ensures Others(a + b, patch, cs) == Others(a, patch, cs) + Others(b, patch, cs)
  {
    if a == [] {
      assert a + b == b;
    } else {
      assert (a + b)[1..] == a[1..] + b;
      OthersConcat(a[1..], b, patch, cs);
    }
  }

  lemma WithoutTail<T>(s: seq<T>, i: nat)
    requires i + 1 < |s|
    ensures Without(s, i + 1) == [s[0]] + Without(s[1..], i)
  {
  }

  /** The head of a list decides what dropping and looking up a name do. */
  lemma HeadOfList(ms: seq<Member<Json>>, k: Str, cs: bool)
    requires ms != []
    ensures Drop(ms, k, cs) == if Fold(ms[0].key, cs) == Fold(k, cs) then ms[1..] else [ms[0]] + Drop(ms[1..], k, cs)
    ensures Item(ms, k, cs) == if Fold(ms[0].key, cs) == Fold(k, cs) then Some(ms[0].value) else Item(ms[1..], k, cs)
  {
    hide Fold;
    CompareStringsEqual(k, ms[0].key, cs);
    var i := FindKey(ms[1..], k, cs);
    if i < |ms| - 1 {
      WithoutTail(ms, i);
    } else {
      assert ms == [ms[0]] + ms[1..];
    }
  }

  lemma HeadOfCons(m: Member<Json>, ms: seq<Member<Json>>, k: Str, cs: bool)
    ensures Item([m] + ms, k, cs) == if Fold(m.key, cs) == Fold(k, cs) then Some(m.value) else Item(ms, k, cs)
  {
    HeadOfList([m] + ms, k, cs);
    assert ([m] + ms)[1..] == ms;
  }

  /** Looking up one name in a list from which another was dropped, or to which another was appended. */
  lemma {:induction false} ItemElsewhere(ms: seq<Member<Json>>, k: Str, x: Json, j: Str, cs: bool)
    requires Fold(j, cs) != Fold(k, cs)
    ensures Item(Drop(ms, k, cs), j, cs) == Item(ms, j, cs)
    ensures Item(ms + [Member(k, x)], j, cs) == Item(ms, j, cs)
  {
    hide Fold, Item, Drop;
    if ms == [] {
      EmptyList(k, j, cs);
      assert ms + [Member(k, x)] == [Member(k, x)] + [];
      HeadOfCons(Member(k, x), [], j, cs);
    } else {
      ItemElsewhere(ms[1..], k, x, j, cs);
      HeadOfList(ms, k, cs);
      HeadOfList(ms, j, cs);
      HeadOfCons(ms[0], Drop(ms[1..], k, cs), j, cs);
      assert ms + [Member(k, x)] == [ms[0]] + (ms[1..] + [Member(k, x)]);
      HeadOfCons(ms[0], ms[1..] + [Member(k, x)], j, cs);
    }
  }

  lemma EmptyList(k: Str, j: Str, cs: bool)
    ensures Drop([], k, cs) == [] && Item([], j, cs) == None
  {
  }

  /** Whether the patch mentions a name. */
  predicate Mentions(patch: seq<Member<Json>>, name: Str, cs: bool) {
    FindKey(patch, name, cs) < |patch|
  }

  lemma MentionsCons(m: Member<Json>, patch: seq<Member<Json>>, name: Str, cs: bool)
    ensures Mentions([m] + patch, name, cs) <==> Fold(m.key, cs) == Fold(name, cs) || Mentions(patch, name, cs)
  {
    CompareStringsEqual(name, m.key, cs);
    assert ([m] + patch)[1..] == patch;
  }

  /** The others of a list, when the patch begins with the name `k`. */
  lemma {:induction false} OthersDrop(ms: seq<Member<Json>>, m: Member<Json>, patch: seq<Member<Json>>, cs: bool)
    requires UniqueKeys(ms, cs)
    ensures Others(Drop(ms, m.key, cs), patch, cs) == Others(ms, [m] + patch, cs)
  {
    hide Fold, Drop, Mentions;
    if ms == [] {
      EmptyList(m.key, m.key, cs);
    } else {
      UniqueTail(ms, cs);
      OthersDrop(ms[1..], m, patch, cs);
      HeadOfList(ms, m.key, cs);
      MentionsCons(m, patch, ms[0].key, cs);
      if Fold(ms[0].key, cs) == Fold(m.key, cs) {
        NoneToDrop(ms[1..], m.key, cs);
      } else {
        OthersCons(ms[0], Drop(ms[1..], m.key, cs), patch, cs);
      }
    }
  }

  lemma OthersCons(m: Member<Json>, ms: seq<Member<Json>>, patch: seq<Member<Json>>, cs: bool)
    ensures Others([m] + ms, patch, cs) == (if Mentions(patch, m.key, cs) then [] else [m]) + Others(ms, patch, cs)
  {
    assert ([m] + ms)[1..] == ms;
  }

  lemma NoneToDrop(ms: seq<Member<Json>>, k: Str, cs: bool)
    requires forall i | 0 <= i < |ms| :: Fold(ms[i].key, cs) != Fold(k, cs)
    ensures Drop(ms, k, cs) == ms && Item(ms, k, cs) == None
  {
  }

  lemma {:induction false} NewsElsewhere(ms: seq<Member<Json>>, k: Str, x: Json, patch: seq<Member<Json>>, cs: bool)
    requires forall i | 0 <= i < |patch| :: Fold(patch[i].key, cs) != Fold(k, cs)
    ensures News(Drop(ms, k, cs), patch, cs) == News(ms, patch, cs)
    ensures News(ms + [Member(k, x)], patch, cs) == News(ms, patch, cs)
  {
    hide MergePatch;
    if patch != [] {
      ItemElsewhere(ms, k, x, patch[0].key, cs);
      NewsElsewhere(ms, k, x, patch[1..], cs);
    }
  }

  /** The result of a merge in closed form: what was there under other names, then the patch's members. */
  lemma {:induction false} MergeShape(ms: seq<Member<Json>>, patch: seq<Member<Json>>, cs: bool)
    requires UniqueKeys(ms, cs) && UniqueKeys(patch, cs)
    ensures MergeMembers(ms, patch, cs) == Others(ms, patch, cs) + News(ms, patch, cs)
    decreases |patch|
  {
    hide Fold, Drop, Item, Mentions, MergePatch, Others;
    if patch == [] {
      OthersOfNone(ms, cs);
    } else {
      var k, x, rest := patch[0].key, patch[0].value, patch[1..];
      assert patch == [patch[0]] + rest;
      UniqueTail(patch, cs);
      DropUnique(ms, k, cs);
      OthersDrop(ms, patch[0], rest, cs);
      if x.Null? {
        MergeShape(Drop(ms, k, cs), rest, cs);
        NewsElsewhere(ms, k, Null, rest, cs);
      } else {
        var m := Member(k, MergePatch(Item(ms, k, cs), x, cs));
        AppendUnique(Drop(ms, k, cs), m, cs);
        MergeShape(Drop(ms, k, cs) + [m], rest, cs);
        OthersConcat(Drop(ms, k, cs), [m], rest, cs);
        KeptByOthers(m, rest, cs);
        NewsElsewhere(Drop(ms, k, cs), k, m.value, rest, cs);
        NewsElsewhere(ms, k, Null, rest, cs);
      }
    }
  }

  lemma {:induction false} OthersOfNone(ms: seq<Member<Json>>, cs: bool)
    ensures Others(ms, [], cs) == ms
  {
    if ms != [] {
      OthersOfNone(ms[1..], cs);
    }
  }

  lemma KeptByOthers(m: Member<Json>, patch: seq<Member<Json>>, cs: bool)
    requires forall i | 0 <= i < |patch| :: Fold(patch[i].key, cs) != Fold(m.key, cs)
    ensures Others([m], patch, cs) == [m]
  {
  }

  lemma DropUnique(ms: seq<Member<Json>>, k: Str, cs: bool)
    requires UniqueKeys(ms, cs)
    ensures UniqueKeys(Drop(ms, k, cs), cs)
    ensures forall i | 0 <= i < |Drop(ms, k, cs)| :: Fold(Drop(ms, k, cs)[i].key, cs) != Fold(k, cs)
  {
    hide Fold;
    var i := FindKey(ms, k, cs);
    if i < |ms| {
      WithoutKeepsUnique(ms, i, cs);
      forall j | 0 <= j < |ms| - 1
        ensures Fold(Without(ms, i)[j].key, cs) != Fold(k, cs)
      {
        if j >= i { assert Fold(ms[i].key, cs) != Fold(ms[j + 1].key, cs); }
      }
    }
  }

  lemma AppendUnique(ms: seq<Member<Json>>, m: Member<Json>, cs: bool)
    requires UniqueKeys(ms, cs) && forall i | 0 <= i < |ms| :: Fold(ms[i].key, cs) != Fold(m.key, cs)
    ensures UniqueKeys(ms + [m], cs)
  {
  }

  lemma {:induction false} OthersTwice(ms: seq<Member<Json>>, patch: seq<Member<Json>>, cs: bool)
    ensures Others(Others(ms, patch, cs), patch, cs) == Others(ms, patch, cs)
  {
    hide Mentions;
    if ms != [] {
      OthersTwice(ms[1..], patch, cs);
      assert [] + Others(ms[1..], patch, cs) == Others(ms[1..], patch, cs);
      OthersCons(ms[0], Others(ms[1..], patch, cs), patch, cs);
    }
  }

  lemma {:induction false} NewsMentioned(ms: seq<Member<Json>>, rest: seq<Member<Json>>, patch: seq<Member<Json>>, cs: bool)
    requires forall m | m in rest :: Mentions(patch, m.key, cs)
    ensures Others(News(ms, rest, cs), patch, cs) == []
  {
    hide Mentions, MergePatch;
    if rest != [] {
      assert rest[0] in rest;
      NewsMentioned(ms, rest[1..], patch, cs);
      assert [] + News(ms, rest[1..], cs) == News(ms, rest[1..], cs);
      if !rest[0].value.Null? {
        OthersCons(Member(rest[0].key, MergePatch(Item(ms, rest[0].key, cs), rest[0].value, cs)), News(ms, rest[1..], cs), patch, cs);
      }
    }
  }

  lemma MentionsItself(patch: seq<Member<Json>>, cs: bool)
    ensures forall m | m in patch :: Mentions(patch, m.key, cs)
  {
  }

  lemma {:induction false} NewsContain(ms: seq<Member<Json>>, patch: seq<Member<Json>>, i: nat, cs: bool)
    requires i < |patch| && !patch[i].value.Null?
    ensures Member(patch[i].key, MergePatch(Item(ms, patch[i].key, cs), patch[i].value, cs)) in News(ms, patch, cs)
  {
    if i > 0 {
      NewsContain(ms, patch[1..], i - 1, cs);
    }
  }

  lemma UniqueItem(r: seq<Member<Json>>, m: Member<Json>, cs: bool)
    requires UniqueKeys(r, cs) && m in r
    ensures Item(r, m.key, cs) == Some(m.value)
  {
    var i :| 0 <= i < |r| && r[i] == m;
    MemberMeaning(r, i, cs);
  }

  /** Merging the same patch a second time changes nothing, not even the order of members. */
  lemma {:induction false} MergeTwice(target: Option<Json>, patch: Json, cs: bool)
    requires (target.Some? ==> Distinct(target.value, cs)) && Distinct(patch, cs)
    ensures MergePatch(Some(MergePatch(target, patch, cs)), patch, cs) == MergePatch(target, patch, cs)
    decreases patch, 2
  {
    if patch.Object? {
      var ms := if target.Some? && target.value.Object? then target.value.members else [];
      MergeMembersTwice(ms, patch, cs);
    }
  }

  lemma {:induction false} MergeMembersTwice(ms: seq<Member<Json>>, patch: Json, cs: bool)
    requires patch.Object? && Distinct(Object(ms), cs) && Distinct(patch, cs)
    ensures var r := MergeMembers(ms, patch.members, cs); MergeMembers(r, patch.members, cs) == r
    decreases patch, 1
  {
    hide MergeMembers, MergePatch, Others, Meaning, MeaningMembers, RfcMembers, News, Mentions;
    var ps := patch.members;
    var r, others, news := MergeMembers(ms, ps, cs), Others(ms, ps, cs), News(ms, ps, cs);
    MergeMembersIsRfc(ms, ps, cs);
    MergeShape(ms, ps, cs);
    MergeShape(r, ps, cs);
    OthersConcat(others, news, ps, cs);
    OthersTwice(ms, ps, cs);
    MentionsItself(ps, cs);
    NewsMentioned(ms, ps, ps, cs);
    assert Others(r, ps, cs) == others + [];
    NewsFound(ms, ps, r, cs);
    NewsAgain(ms, r, patch, ps, cs);
  }

  /** Every member that the patch sets is found in the result. */
  lemma NewsFound(ms: seq<Member<Json>>, ps: seq<Member<Json>>, r: seq<Member<Json>>, cs: bool)
    requires UniqueKeys(r, cs) && forall m | m in News(ms, ps, cs) :: m in r
    ensures forall i | 0 <= i < |ps| && !ps[i].value.Null? ::
              Item(r, ps[i].key, cs) == Some(MergePatch(Item(ms, ps[i].key, cs), ps[i].value, cs))
  {
    hide MergePatch, News, Item, UniqueKeys;
    forall i | 0 <= i < |ps| && !ps[i].value.Null?
      ensures Item(r, ps[i].key, cs) == Some(MergePatch(Item(ms, ps[i].key, cs), ps[i].value, cs))
    {
      NewsContain(ms, ps, i, cs);
      UniqueItem(r, Member(ps[i].key, MergePatch(Item(ms, ps[i].key, cs), ps[i].value, cs)), cs);
    }
  }

  lemma {:induction false} NewsAgain(ms: seq<Member<Json>>, r: seq<Member<Json>>, top: Json, patch: seq<Member<Json>>, cs: bool)
    requires forall m | m in patch :: m.value < top && Distinct(m.value, cs)
    requires Distinct(Object(ms), cs)
    requires forall i | 0 <= i < |patch| && !patch[i].value.Null? ::
               Item(r, patch[i].key, cs) == Some(MergePatch(Item(ms, patch[i].key, cs), patch[i].value, cs))
    ensures News(r, patch, cs) == News(ms, patch, cs)
    decreases top, 0, |patch|
  {
    hide MergePatch;
    if patch != [] {
      assert patch[0] in patch;
      ItemMeaning(ms, patch[0].key, cs);
      if !patch[0].value.Null? {
        MergeTwice(Item(ms, patch[0].key, cs), patch[0].value, cs);
      }
      NewsAgain(ms, r, top, patch[1..], cs);
    }
  }
}

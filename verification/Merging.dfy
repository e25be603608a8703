/** JSON merge patches: `merge_patch` and `generate_merge_patch` of cJSON_Utils, and RFC 7396. */
module Merging {
  import opened Bytes
  import opened Json
  import opened Sorting
  import opened Comparing

  // ---- section 2 of RFC 7396 ----

  /** The MergePatch function of the RFC on values; None stands for a target that is not there. */
  function RfcMerge(target: Option<Value>, patch: Value): Value
    decreases patch
  {
    match patch
    case VObject(pm) =>
      var m := if target.Some? && target.value.VObject? then target.value.members else map[];
      VObject(map k | k in m.Keys + pm.Keys && !(k in pm && pm[k] == VNull) ::
                if k in pm then RfcMerge(Find(m, k), pm[k]) else m[k])
    case _ => patch
  }

  function Find<K, V>(m: map<K, V>, k: K): Option<V> {
    if k in m then Some(m[k]) else None
  }

  // ---- merge_patch ----

  /** `merge_patch`, where None is a NULL target. */
  function MergePatch(target: Option<Json>, patch: Json, cs: bool): Json
    decreases patch
  {
    if !patch.Object? then patch
    else
      var ms := if target.Some? && target.value.Object? then target.value.members else [];
      Object(MergeMembers(ms, patch.members, cs))
  }

  /** The list without the member that a name finds, if there is one. */
  function Drop(ms: seq<Member<Json>>, name: Str, cs: bool): seq<Member<Json>> {
    var i := FindKey(ms, name, cs);
    if i < |ms| then Without(ms, i) else ms
  }

  /** `get_object_item` on a member list. */
  function Item(ms: seq<Member<Json>>, name: Str, cs: bool): Option<Json> {
    var i := FindKey(ms, name, cs);
    if i < |ms| then Some(ms[i].value) else None
  }

  /** The loop over the patch: each member is deleted, or detached, merged and appended. */
  function MergeMembers(ms: seq<Member<Json>>, patch: seq<Member<Json>>, cs: bool): seq<Member<Json>>
    decreases patch
  {
    if patch == [] then ms
    else
      var (k, x) := (patch[0].key, patch[0].value);
      if x.Null? then MergeMembers(Drop(ms, k, cs), patch[1..], cs)
      else MergeMembers(Drop(ms, k, cs) + [Member(k, MergePatch(Item(ms, k, cs), x, cs))], patch[1..], cs)
  }

  // ---- generate_merge_patch ----

  lemma {:induction false} SizeConcat(a: seq<Member<Json>>, b: seq<Member<Json>>)
    ensures SizeMembers(a + b) == SizeMembers(a) + SizeMembers(b)
  {
    if a == [] {
      assert a + b == b;
    } else {
      assert (a + b)[1..] == a[1..] + b;
      SizeConcat(a[1..], b);
    }
  }

  lemma {:induction false} SizeOfPermutation(a: seq<Member<Json>>, b: seq<Member<Json>>)
    requires multiset(a) == multiset(b)
    ensures SizeMembers(a) == SizeMembers(b)
    decreases |a|
  {
    hide SizeMembers;
    if a == [] {
      NothingPermuted(b);
    } else {
      var i := PermutationStep(a, b);
      SizeOfPermutation(a[1..], b[..i] + b[i + 1..]);
      TakeOutSize([], a[0], a[1..]);
      TakeOutSize(b[..i], a[0], b[i + 1..]);
      assert [] + ([a[0]] + a[1..]) == a && [] + a[1..] == a[1..];
    }
  }

  lemma TakeOutSize(front: seq<Member<Json>>, x: Member<Json>, back: seq<Member<Json>>)
    ensures SizeMembers(front + ([x] + back)) == Size(x.value) + SizeMembers(front + back)
  {
    SizeConcat(front, [x] + back);
    SizeConcat(front, back);
    SizeCons(x, back);
  }

  /** Reordering by `compare_json` does not change the size of a tree. */
  lemma {:induction false} CompareKeepsSize(a: Json, b: Json, cs: bool)
    ensures Size(CompareJson(a, b, cs).a) == Size(a)
    decreases a, 1, 0
  {
    hide Sort, CompareItems, CompareMembers;
    if SameType(a, b) {
      match a {
        case Array(items) => ItemsKeepSize(items, b.items, cs);
        case Object(ms) =>
          SortedBag(ms, cs);
          SortPermutes(ms, cs);
          SizeOfPermutation(Sort(ms, cs), ms);
          MembersKeepSize(a, Sort(ms, cs), Sort(b.members, cs), cs);
        case _ =>
      }
    }
  }

  lemma {:induction false} ItemsKeepSize(a: seq<Json>, b: seq<Json>, cs: bool)
    ensures SizeItems(CompareItems(a, b, cs).a) == SizeItems(a)
    decreases a
  {
    if a != [] && b != [] {
      CompareKeepsSize(a[0], b[0], cs);
      ItemsKeepSize(a[1..], b[1..], cs);
    }
  }

  lemma SizeCons(x: Member<Json>, rest: seq<Member<Json>>)
    ensures SizeMembers([x] + rest) == Size(x.value) + SizeMembers(rest)
  {
    assert ([x] + rest)[1..] == rest;
  }

  lemma {:induction false} MembersKeepSize(top: Json, a: seq<Member<Json>>, b: seq<Member<Json>>, cs: bool)
    requires forall m | m in a :: m.value < top
    ensures SizeMembers(CompareMembers(top, a, b, cs).a) == SizeMembers(a)
    decreases top, 0, |a|
  {
    if a != [] && b != [] && CompareKeys(a[0], b[0], cs) == 0 {
      CompareKeepsSize(a[0].value, b[0].value, cs);
      MembersKeepSize(top, a[1..], b[1..], cs);
      CompareMembersStep(top, a, b, cs);
      var head, tail := CompareJson(a[0].value, b[0].value, cs), CompareMembers(top, a[1..], b[1..], cs);
      SizeCons(Member(a[0].key, head.a), if head.same then tail.a else a[1..]);
    }
  }

  /** `generate_merge_patch`, None for NULL. */
  function GenerateMerge(from: Json, to: Json, cs: bool): Option<Json>
    decreases Size(from), 0
  {
    if !to.Object? || !from.Object? then Some(to)
    else
      var fs := Sort(from.members, cs);
      SortedBag(from.members, cs);
      var patch := MergeWalk(SizeMembers(from.members), fs, Sort(to.members, cs), cs);
      if patch == [] then None else Some(Object(patch))
  }

  /**
   * The walk along both sorted lists. Names are compared by `strcmp` here, whatever the case mode;
   * for members that differ, the trees have been reordered by the comparison, and the patch below
   * them is generated in the case insensitive mode.
   */
  function MergeWalk(ghost bound: nat, from: seq<Member<Json>>, to: seq<Member<Json>>, cs: bool): seq<Member<Json>>
    requires forall m | m in from :: Size(m.value) <= bound
    decreases bound, 1 + |from| + |to|
  {
    if from == [] && to == [] then []
    else
      var diff := if from == [] then 1 else if to == [] then -1 else Compare(from[0].key, to[0].key);
      if diff < 0 then [Member(from[0].key, Null)] + MergeWalk(bound, from[1..], to, cs)
      else if diff > 0 then [to[0]] + MergeWalk(bound, from, to[1..], cs)
      else
        CompareKeepsSize(from[0].value, to[0].value, cs);
        var r := CompareJson(from[0].value, to[0].value, cs);
        var below := if r.same then None else GenerateMerge(r.a, r.b, false);
        (match below case Some(p) => [Member(to[0].key, p)] case None => [])
        + MergeWalk(bound, from[1..], to[1..], cs)
  }
}

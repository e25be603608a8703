/** The two tree comparisons: the sorting walk of cJSON_Utils and the quadratic lookup of cJSON. */
module Comparing {
  import opened Bytes
  import opened Json
  import opened Sorting

  // ---- compare_json ----

  /** The answer, and the two trees in the member order the comparison leaves them in. */
  datatype Compared<T> = Compared(same: bool, a: T, b: T)

  /** `compare_json` */
  function CompareJson(a: Json, b: Json, cs: bool): (r: Compared<Json>)
    ensures r.same ==> SameType(a, b)
    decreases a, 1, 0
  {
    if !SameType(a, b) then Compared(false, a, b)
    else
      match a
      case Number(n) => Compared(n == b.n, a, b)
      case String(s) => Compared(Compare(s, b.s) == 0, a, b)
      case Array(items) =>
        var r := CompareItems(items, b.items, cs);
        Compared(r.same, Array(r.a), Array(r.b))
      case Object(ms) =>
        SortPermutes(ms, cs);
        assert forall m | m in Sort(ms, cs) :: m in multiset(ms);
        var r := CompareMembers(a, Sort(ms, cs), Sort(b.members, cs), cs);
        Compared(r.same, Object(r.a), Object(r.b))
      case _ => Compared(true, a, b)
  }

  /** The array loop; it stops at the first difference. */
  function CompareItems(a: seq<Json>, b: seq<Json>, cs: bool): (r: Compared<seq<Json>>)
    decreases a
  {
    if a == [] || b == [] then Compared(a == b, a, b)
    else
      var head := CompareJson(a[0], b[0], cs);
      if !head.same then Compared(false, [head.a] + a[1..], [head.b] + b[1..])
      else
        var tail := CompareItems(a[1..], b[1..], cs);
        Compared(tail.same, [head.a] + tail.a, [head.b] + tail.b)
  }

  /** The object loop, on members already sorted. */
  function CompareMembers(ghost top: Json, a: seq<Member<Json>>, b: seq<Member<Json>>, cs: bool): (r: Compared<seq<Member<Json>>>)
    requires forall m | m in a :: m.value < top
    decreases top, 0, |a|
  {
    if a == [] || b == [] then Compared(a == b, a, b)
    else if CompareKeys(a[0], b[0], cs) != 0 then Compared(false, a, b)
    else
      var head := CompareJson(a[0].value, b[0].value, cs);
      var a0, b0 := Member(a[0].key, head.a), Member(b[0].key, head.b);
      if !head.same then Compared(false, [a0] + a[1..], [b0] + b[1..])
      else
        var tail := CompareMembers(top, a[1..], b[1..], cs);
        Compared(tail.same, [a0] + tail.a, [b0] + tail.b)
  }

  // ---- cJSON_Compare ----

  function Size(t: Json): nat {
    match t
    case Array(items) => 1 + SizeItems(items)
    case Object(ms) => 1 + SizeMembers(ms)
    case _ => 0
  }

  function SizeItems(items: seq<Json>): (n: nat)
    ensures forall x | x in items :: Size(x) <= n
  {
    if items == [] then 0 else Size(items[0]) + SizeItems(items[1..])
  }

  function SizeMembers(ms: seq<Member<Json>>): (n: nat)
    ensures forall m | m in ms :: Size(m.value) <= n
  {
    if ms == [] then 0 else Size(ms[0].value) + SizeMembers(ms[1..])
  }

  /** `cJSON_Compare`: each member of either object is looked up in the other. */
  predicate CompareDeep(a: Json, b: Json, cs: bool)
    decreases Size(a) + Size(b), 1
  {
    && SameType(a, b)
    && match a
       case Number(n) => n == b.n
       case String(s) => Compare(s, b.s) == 0
       case Array(items) => |items| == |b.items| && forall i | 0 <= i < |items| :: CompareDeep(items[i], b.items[i], cs)
       case Object(ms) => Covers(ms, b.members, cs) && Covers(b.members, ms, cs)
       case _ => true
  }

  predicate Covers(a: seq<Member<Json>>, b: seq<Member<Json>>, cs: bool)
    decreases SizeMembers(a) + SizeMembers(b), 2
  {
    forall i | 0 <= i < |a| ::
      var j := FindKey(b, a[i].key, cs);
      j < |b| && CompareDeep(a[i].value, b[j].value, cs)
  }

  // ---- both decide equality of meanings ----

  lemma {:induction false} CompareJsonExact(a: Json, b: Json, cs: bool)
    requires Distinct(a, cs) && Distinct(b, cs)
    ensures CompareJson(a, b, cs).same <==> Meaning(a, cs) == Meaning(b, cs)
    decreases a, 1, 0
  {
    if SameType(a, b) {
      match a {
        case String(s) => CompareEqual(s, b.s);
        case Array(items) =>
          CompareItemsExact(items, b.items, cs);
        case Object(ms) =>
          SortedSubtrees(a, cs);
          SortedSubtrees(b, cs);
          CompareMembersExact(a, Sort(ms, cs), Sort(b.members, cs), cs);
        case _ =>
      }
    }
  }

  /** What sorting the members of an object keeps. */
  lemma SortedSubtrees(t: Json, cs: bool)
    requires t.Object? && Distinct(t, cs)
    ensures Ascending(Sort(t.members, cs), cs) && UniqueKeys(Sort(t.members, cs), cs)
    ensures forall m | m in Sort(t.members, cs) :: m.value < t && Distinct(m.value, cs)
    ensures MeaningMembers(Sort(t.members, cs), cs) == MeaningMembers(t.members, cs)
    ensures Distinct(Object(Sort(t.members, cs)), cs)
  {
    SortUnique(t.members, cs);
    SortMeaning(t.members, cs);
    SortPermutes(t.members, cs);
    forall m | m in Sort(t.members, cs)
      ensures m.value < t && Distinct(m.value, cs)
    {
      assert m in multiset(t.members);
    }
  }

  lemma {:induction false} CompareItemsExact(a: seq<Json>, b: seq<Json>, cs: bool)
    requires (forall x | x in a :: Distinct(x, cs)) && (forall x | x in b :: Distinct(x, cs))
    ensures CompareItems(a, b, cs).same <==> MeaningItems(a, cs) == MeaningItems(b, cs)
    decreases a
  {
    if a != [] && b != [] {
      CompareJsonExact(a[0], b[0], cs);
      CompareItemsExact(a[1..], b[1..], cs);
      assert MeaningItems(a, cs)[1..] == MeaningItems(a[1..], cs);
      assert MeaningItems(b, cs)[1..] == MeaningItems(b[1..], cs);
    }
  }

  lemma {:induction false} CompareMembersExact(top: Json, a: seq<Member<Json>>, b: seq<Member<Json>>, cs: bool)
    requires forall m | m in a :: m.value < top
    requires (forall m | m in a :: Distinct(m.value, cs)) && (forall m | m in b :: Distinct(m.value, cs))
    requires Ascending(a, cs) && Ascending(b, cs)
    ensures CompareMembers(top, a, b, cs).same <==> MeaningMembers(a, cs) == MeaningMembers(b, cs)
    decreases top, 0, |a|
  {
    if a != [] && b != [] {
      LeastName(a, cs);
      LeastName(b, cs);
      CompareStringsEqual(a[0].key, b[0].key, cs);
      if CompareKeys(a[0], b[0], cs) == 0 {
        CompareJsonExact(a[0].value, b[0].value, cs);
        CompareMembersExact(top, a[1..], b[1..], cs);
        SameHead(MeaningMembers(a[1..], cs), MeaningMembers(b[1..], cs), Fold(a[0].key, cs),
                 Meaning(a[0].value, cs), Meaning(b[0].value, cs));
      } else if MeaningMembers(a, cs) == MeaningMembers(b, cs) {
        CompareAntisymmetric(Fold(a[0].key, cs), Fold(b[0].key, cs));
        OwnName(a, cs);
        OwnName(b, cs);
      }
    } else if a != [] {
      assert Fold(a[0].key, cs) in MeaningMembers(a, cs);
    } else if b != [] {
      assert Fold(b[0].key, cs) in MeaningMembers(b, cs);
    }
  }

  lemma OwnName(ms: seq<Member<Json>>, cs: bool)
    requires ms != []
    ensures Fold(ms[0].key, cs) in MeaningMembers(ms, cs)
  {
  }

  /** In an ascending list the first name is below all others, and occurs once. */
  lemma LeastName(ms: seq<Member<Json>>, cs: bool)
    requires ms != [] && Ascending(ms, cs)
    ensures Ascending(ms[1..], cs)
    ensures Fold(ms[0].key, cs) !in MeaningMembers(ms[1..], cs)
    ensures forall k | k in MeaningMembers(ms, cs) :: k == Fold(ms[0].key, cs) || Compare(Fold(ms[0].key, cs), k) < 0
  {
    forall k | k in MeaningMembers(ms[1..], cs)
      ensures Compare(Fold(ms[0].key, cs), k) < 0
    {
      var i := KeyOrigin(ms[1..], k, cs);
      AscendingSorted(ms[1..], cs);
      if i > 0 {
        assert CompareKeys(ms[1..][0], ms[1..][i], cs) <= 0;
        CompareTransitive(Fold(ms[0].key, cs), Fold(ms[1].key, cs), k);
      }
    }
    CompareEqual(Fold(ms[0].key, cs), Fold(ms[0].key, cs));
  }

  lemma SameHead<K, V>(a: map<K, V>, b: map<K, V>, k: K, v: V, w: V)
    requires k !in a && k !in b
    ensures a[k := v] == b[k := w] <==> v == w && a == b
  {
    if a[k := v] == b[k := w] {
      assert a == a[k := v] - {k} && b == b[k := w] - {k};
      assert a[k := v][k] == b[k := w][k];
    }
  }

  lemma {:induction false} CompareDeepExact(a: Json, b: Json, cs: bool)
    requires Distinct(a, cs) && Distinct(b, cs)
    ensures CompareDeep(a, b, cs) <==> Meaning(a, cs) == Meaning(b, cs)
    decreases Size(a) + Size(b), 1
  {
    if SameType(a, b) {
      match a {
        case String(s) => CompareEqual(s, b.s);
        case Array(items) =>
          if |items| == |b.items| { ElementsExact(items, b.items, cs); }
        case Object(ms) =>
          CoversExact(ms, b.members, cs);
          CoversExact(b.members, ms, cs);
          SubMapBoth(MeaningMembers(ms, cs), MeaningMembers(b.members, cs));
        case _ =>
      }
    }
  }

  lemma {:induction false} ElementsExact(a: seq<Json>, b: seq<Json>, cs: bool)
    requires |a| == |b|
    requires (forall x | x in a :: Distinct(x, cs)) && (forall x | x in b :: Distinct(x, cs))
    ensures (forall i | 0 <= i < |a| :: CompareDeep(a[i], b[i], cs)) <==> MeaningItems(a, cs) == MeaningItems(b, cs)
    decreases SizeItems(a) + SizeItems(b), 2
  {
    forall i | 0 <= i < |a|
      ensures CompareDeep(a[i], b[i], cs) <==> MeaningItems(a, cs)[i] == MeaningItems(b, cs)[i]
    {
      assert a[i] in a && b[i] in b;
      CompareDeepExact(a[i], b[i], cs);
    }
  }

  /** One map is part of another. */
  ghost predicate SubMap<K, V>(a: map<K, V>, b: map<K, V>) {
    forall k | k in a :: k in b && a[k] == b[k]
  }

  lemma SubMapBoth<K, V>(a: map<K, V>, b: map<K, V>)
    ensures SubMap(a, b) && SubMap(b, a) <==> a == b
  {
  }

  lemma {:induction false} CoversExact(a: seq<Member<Json>>, b: seq<Member<Json>>, cs: bool)
    requires UniqueKeys(a, cs)
    requires (forall m | m in a :: Distinct(m.value, cs)) && (forall m | m in b :: Distinct(m.value, cs))
    ensures Covers(a, b, cs) <==> SubMap(MeaningMembers(a, cs), MeaningMembers(b, cs))
    decreases SizeMembers(a) + SizeMembers(b), 2
  {
    var ma, mb := MeaningMembers(a, cs), MeaningMembers(b, cs);
    forall i | 0 <= i < |a|
      ensures var k, j := Fold(a[i].key, cs), FindKey(b, a[i].key, cs);
              k in ma && ((j < |b| && CompareDeep(a[i].value, b[j].value, cs)) <==> (k in mb && ma[k] == mb[k]))
    {
      var j := FindKey(b, a[i].key, cs);
      MemberMeaning(a, i, cs);
      LookupMeaning(b, a[i].key, cs);
      assert a[i] in a;
      if j < |b| {
        assert b[j] in b;
        CompareDeepExact(a[i].value, b[j].value, cs);
      }
    }
    if Covers(a, b, cs) {
      forall k | k in ma
        ensures k in mb && ma[k] == mb[k]
      {
        var i := KeyOrigin(a, k, cs);
      }
    }
  }

  /** The fast walk and the quadratic lookup give the same answer: whether the trees mean the same. */
  lemma ComparisonsAgree(a: Json, b: Json, cs: bool)
    requires Distinct(a, cs) && Distinct(b, cs)
    ensures CompareJson(a, b, cs).same == CompareDeep(a, b, cs) == (Meaning(a, cs) == Meaning(b, cs))
  {
    CompareJsonExact(a, b, cs);
    CompareDeepExact(a, b, cs);
  }

  // ---- compare_json only reorders members ----

  /** A tree with every member list taken as a bag: two trees with the same bag differ in member order only. */
  datatype Bag = Leaf(t: Json) | Items(items: seq<Bag>) | Members(members: multiset<Member<Bag>>)

  function BagOf(t: Json): Bag {
    match t
    case Array(items) => Items(BagItems(items))
    case Object(ms) => Members(multiset(BagList(ms)))
    case _ => Leaf(t)
  }

  function BagItems(items: seq<Json>): (r: seq<Bag>)
    ensures |r| == |items|
    ensures forall i | 0 <= i < |items| :: r[i] == BagOf(items[i])
  {
    if items == [] then [] else [BagOf(items[0])] + BagItems(items[1..])
  }

  function BagMembers(ms: seq<Member<Json>>): multiset<Member<Bag>> {
    multiset(BagList(ms))
  }

  function BagList(ms: seq<Member<Json>>): (r: seq<Member<Bag>>)
    ensures |r| == |ms|
    ensures forall i | 0 <= i < |ms| :: r[i] == Member(ms[i].key, BagOf(ms[i].value))
  {
    if ms == [] then [] else [Member(ms[0].key, BagOf(ms[0].value))] + BagList(ms[1..])
  }

  lemma TakeOutMultiset<T>(front: seq<T>, x: T, back: seq<T>)
    ensures multiset(front + ([x] + back)) == multiset{x} + multiset(front + back)
  {
  }

  lemma TakeOutBag(front: seq<Member<Json>>, x: Member<Json>, back: seq<Member<Json>>)
    ensures BagMembers(front + ([x] + back)) == multiset{Member(x.key, BagOf(x.value))} + BagMembers(front + back)
  {
    hide BagOf;
    var m := Member(x.key, BagOf(x.value));
    BagListConcat(front, [x] + back);
    BagListConcat([x], back);
    BagListConcat(front, back);
    assert BagList([x]) == [m];
    TakeOutMultiset(BagList(front), m, BagList(back));
  }

  lemma BagListConcat(a: seq<Member<Json>>, b: seq<Member<Json>>)
    ensures BagList(a + b) == BagList(a) + BagList(b)
  {
    hide BagOf;
  }

  lemma {:induction false} BagOfPermutation(a: seq<Member<Json>>, b: seq<Member<Json>>)
    requires multiset(a) == multiset(b)
    ensures BagMembers(a) == BagMembers(b)
    decreases |a|
  {
    hide BagMembers;
    if a == [] {
      NothingPermuted(b);
    } else {
      var i := PermutationStep(a, b);
      BagOfPermutation(a[1..], b[..i] + b[i + 1..]);
      TakeOutBag([], a[0], a[1..]);
      TakeOutBag(b[..i], a[0], b[i + 1..]);
      assert [] + ([a[0]] + a[1..]) == a && [] + a[1..] == a[1..];
    }
  }

  lemma SortedBag(ms: seq<Member<Json>>, cs: bool)
    ensures BagMembers(Sort(ms, cs)) == BagMembers(ms)
    ensures forall m | m in Sort(ms, cs) :: m in ms
  {
    SortPermutes(ms, cs);
    BagOfPermutation(Sort(ms, cs), ms);
    forall m | m in Sort(ms, cs)
      ensures m in ms
    {
      assert m in multiset(ms);
    }
  }

  /** Whatever the answer and whether or not names are unique, the comparison loses and invents nothing. */
  lemma {:induction false} CompareOnlyReorders(a: Json, b: Json, cs: bool)
    ensures BagOf(CompareJson(a, b, cs).a) == BagOf(a)
    ensures BagOf(CompareJson(a, b, cs).b) == BagOf(b)
    decreases a, 1, 0
  {
    hide Sort, CompareItems, CompareMembers, BagItems, BagList;
    if SameType(a, b) {
      match a {
        case Array(items) => ItemsOnlyReorder(items, b.items, cs);
        case Object(ms) => ObjectOnlyReorders(a, b, cs);
        case _ =>
      }
    }
  }

  lemma {:induction false} ObjectOnlyReorders(a: Json, b: Json, cs: bool)
    requires a.Object? && b.Object?
    ensures BagOf(CompareJson(a, b, cs).a) == BagOf(a)
    ensures BagOf(CompareJson(a, b, cs).b) == BagOf(b)
    decreases a, 0
  {
    hide Sort, CompareMembers, BagList;
    SortedBag(a.members, cs);
    SortedBag(b.members, cs);
    MembersOnlyReorder(a, Sort(a.members, cs), Sort(b.members, cs), cs);
  }

  lemma {:induction false} ItemsOnlyReorder(a: seq<Json>, b: seq<Json>, cs: bool)
    ensures BagItems(CompareItems(a, b, cs).a) == BagItems(a)
    ensures BagItems(CompareItems(a, b, cs).b) == BagItems(b)
    decreases a
  {
    if a != [] && b != [] {
      CompareOnlyReorders(a[0], b[0], cs);
      ItemsOnlyReorder(a[1..], b[1..], cs);
    }
  }

  lemma BagCons(x: Member<Json>, rest: seq<Member<Json>>)
    ensures BagMembers([x] + rest) == multiset{Member(x.key, BagOf(x.value))} + BagMembers(rest)
  {
    assert [] + ([x] + rest) == [x] + rest && [] + rest == rest;
    TakeOutBag([], x, rest);
  }

  /** One round of the member loop, spelled out. */
  lemma CompareMembersStep(top: Json, a: seq<Member<Json>>, b: seq<Member<Json>>, cs: bool)
    requires forall m | m in a :: m.value < top
    requires a != [] && b != [] && CompareKeys(a[0], b[0], cs) == 0
    ensures var head := CompareJson(a[0].value, b[0].value, cs);
            var tail := CompareMembers(top, a[1..], b[1..], cs);
            var r := CompareMembers(top, a, b, cs);
            && r.a == [Member(a[0].key, head.a)] + (if head.same then tail.a else a[1..])
            && r.b == [Member(b[0].key, head.b)] + (if head.same then tail.b else b[1..])
  {
  }

  lemma {:induction false} MembersOnlyReorder(top: Json, a: seq<Member<Json>>, b: seq<Member<Json>>, cs: bool)
    requires forall m | m in a :: m.value < top
    ensures BagMembers(CompareMembers(top, a, b, cs).a) == BagMembers(a)
    ensures BagMembers(CompareMembers(top, a, b, cs).b) == BagMembers(b)
    decreases top, 0, |a|
  {
    if a != [] && b != [] && CompareKeys(a[0], b[0], cs) == 0 {
      CompareOnlyReorders(a[0].value, b[0].value, cs);
      MembersOnlyReorder(top, a[1..], b[1..], cs);
      CompareMembersStep(top, a, b, cs);
      var head, tail := CompareJson(a[0].value, b[0].value, cs), CompareMembers(top, a[1..], b[1..], cs);
      BagCons(Member(a[0].key, head.a), if head.same then tail.a else a[1..]);
      BagCons(Member(b[0].key, head.b), if head.same then tail.b else b[1..]);
    }
  }

  // ---- what reordering means ----

  /** A member of the one list that stands for a member of the other. */
  lemma Partner(a: seq<Member<Json>>, b: seq<Member<Json>>, j: nat) returns (i: nat)
    requires BagMembers(a) == BagMembers(b) && j < |b|
    ensures i < |a| && a[i].key == b[j].key && BagOf(a[i].value) == BagOf(b[j].value)
  {
    assert BagList(b)[j] in multiset(BagList(a));
    i :| 0 <= i < |a| && BagList(a)[i] == BagList(b)[j];
  }

  lemma PartnersUnique(a: seq<Member<Json>>, b: seq<Member<Json>>, cs: bool)
    requires BagMembers(a) == BagMembers(b) && UniqueKeys(a, cs)
    ensures UniqueKeys(b, cs)
  {
    hide Fold, BagOf;
    PermutationKeepsUnique(BagList(a), BagList(b), cs);
    forall i, j | 0 <= i < j < |b|
      ensures Fold(b[i].key, cs) != Fold(b[j].key, cs)
    {
      assert Fold(BagList(b)[i].key, cs) != Fold(BagList(b)[j].key, cs);
    }
  }

  /** Trees with distinct names that differ in member order only mean the same. */
  lemma {:induction false} SameBagSameMeaning(a: Json, b: Json, cs: bool)
    requires BagOf(a) == BagOf(b) && Distinct(a, cs)
    ensures Distinct(b, cs) && Meaning(a, cs) == Meaning(b, cs)
    decreases b, 1
  {
    match b {
      case Array(items) =>
        forall i | 0 <= i < |items|
          ensures Distinct(items[i], cs) && Meaning(a.items[i], cs) == Meaning(items[i], cs)
        {
          assert BagItems(a.items)[i] == BagItems(items)[i];
          SameBagSameMeaning(a.items[i], items[i], cs);
        }
        assert MeaningItems(a.items, cs) == MeaningItems(items, cs);
      case Object(ms) =>
        SameBagMembers(a.members, b, cs);
      case _ =>
    }
  }

  lemma {:induction false} SameBagMembers(a: seq<Member<Json>>, b: Json, cs: bool)
    requires b.Object? && BagMembers(a) == BagMembers(b.members) && Distinct(Object(a), cs)
    ensures Distinct(b, cs) && MeaningMembers(a, cs) == MeaningMembers(b.members, cs)
    decreases b, 0
  {
    hide BagOf, Fold, BagMembers, Meaning;
    var ms, ma, mb := b.members, MeaningMembers(a, cs), MeaningMembers(b.members, cs);
    PartnersUnique(a, ms, cs);
    forall j | 0 <= j < |ms|
      ensures Distinct(ms[j].value, cs)
      ensures Fold(ms[j].key, cs) in ma && Fold(ms[j].key, cs) in mb && ma[Fold(ms[j].key, cs)] == mb[Fold(ms[j].key, cs)]
    {
      var i := Partner(a, ms, j);
      assert a[i] in a;
      SameBagSameMeaning(a[i].value, ms[j].value, cs);
      MemberMeaning(a, i, cs);
      MemberMeaning(ms, j, cs);
    }
    forall k | k in ma
      ensures k in mb
    {
      var i := KeyOrigin(a, k, cs);
      var j := Partner(ms, a, i);
    }
    forall k | k in mb
      ensures k in ma && ma[k] == mb[k]
    {
      var j := KeyOrigin(ms, k, cs);
    }
  }

  /** With distinct names, the trees a comparison leaves behind mean what they meant. */
  lemma CompareKeepsMeaning(a: Json, b: Json, cs: bool)
    ensures Distinct(a, cs) ==> Distinct(CompareJson(a, b, cs).a, cs) && Meaning(CompareJson(a, b, cs).a, cs) == Meaning(a, cs)
    ensures Distinct(b, cs) ==> Distinct(CompareJson(a, b, cs).b, cs) && Meaning(CompareJson(a, b, cs).b, cs) == Meaning(b, cs)
  {
    CompareOnlyReorders(a, b, cs);
    if Distinct(a, cs) { SameBagSameMeaning(a, CompareJson(a, b, cs).a, cs); }
    if Distinct(b, cs) { SameBagSameMeaning(b, CompareJson(a, b, cs).b, cs); }
  }
}

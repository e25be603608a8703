/** The tree a cJSON item stands for, and its meaning when objects are read as maps. */
module Json {
  import opened Bytes

  const INT_MIN := -0x8000_0000
  const INT_MAX := 0x7FFF_FFFF
  type int32 = n: int | INT_MIN <= n <= INT_MAX

  datatype Member<+T> = Member(key: Str, value: T)

  /** One constructor for each item type; members stand in list order. */
  datatype Json =
    | Null
    | False
    | True
    | Number(n: int32)
    | String(s: Str)
    | Array(items: seq<Json>)
    | Object(members: seq<Member<Json>>)

  /** The masked `type` fields agree. */
  predicate SameType(a: Json, b: Json) {
    match a
    case Null => b.Null?
    case False => b.False?
    case True => b.True?
    case Number(_) => b.Number?
    case String(_) => b.String?
    case Array(_) => b.Array?
    case Object(_) => b.Object?
  }

  /** The index of the first member with the given name, or the number of members: `get_object_item`. */
  function FindKey<T>(ms: seq<Member<T>>, name: Str, cs: bool): (i: nat)
    ensures i <= |ms|
    ensures i < |ms| ==> Fold(ms[i].key, cs) == Fold(name, cs)
    ensures forall j | 0 <= j < i :: Fold(ms[j].key, cs) != Fold(name, cs)
  {
    if ms == [] then 0
    else
      CompareStringsEqual(name, ms[0].key, cs);
      if CompareStrings(name, ms[0].key, cs) == 0 then 0 else 1 + FindKey(ms[1..], name, cs)
  }

  /** No two members have the same name in the chosen case mode. */
  ghost predicate UniqueKeys<T>(ms: seq<Member<T>>, cs: bool) {
    forall i, j | 0 <= i < j < |ms| :: Fold(ms[i].key, cs) != Fold(ms[j].key, cs)
  }

  /** `UniqueKeys` at every object of the tree. */
  ghost predicate Distinct(t: Json, cs: bool) {
    match t
    case Array(items) => forall x | x in items :: Distinct(x, cs)
    case Object(ms) => UniqueKeys(ms, cs) && forall m | m in ms :: Distinct(m.value, cs)
    case _ => true
  }

  /** A JSON value whose objects are maps: what a tree means, whatever the order of its members. */
  datatype Value =
    | VNull
    | VFalse
    | VTrue
    | VNumber(n: int)
    | VString(s: Str)
    | VArray(items: seq<Value>)
    | VObject(members: map<Str, Value>)

  /** The value of a tree; a lookup in the map is the first-match lookup in the list. */
  function Meaning(t: Json, cs: bool): Value
    decreases t
  {
    match t
    case Null => VNull
    case False => VFalse
    case True => VTrue
    case Number(n) => VNumber(n)
    case String(s) => VString(s)
    case Array(items) => VArray(MeaningItems(items, cs))
    case Object(ms) => VObject(MeaningMembers(ms, cs))
  }

  function MeaningItems(items: seq<Json>, cs: bool): (vs: seq<Value>)
    ensures |vs| == |items|
    ensures forall i | 0 <= i < |items| :: vs[i] == Meaning(items[i], cs)
    decreases items
  {
    if items == [] then [] else [Meaning(items[0], cs)] + MeaningItems(items[1..], cs)
  }

  function MeaningMembers(ms: seq<Member<Json>>, cs: bool): map<Str, Value>
    decreases ms
  {
    if ms == [] then map[]
    else MeaningMembers(ms[1..], cs)[Fold(ms[0].key, cs) := Meaning(ms[0].value, cs)]
  }

  /** Looking a name up in the meaning of an object is `get_object_item` on its list. */
  lemma {:induction false} LookupMeaning(ms: seq<Member<Json>>, name: Str, cs: bool)
    ensures var i := FindKey(ms, name, cs);
            && (Fold(name, cs) in MeaningMembers(ms, cs) <==> i < |ms|)
            && (i < |ms| ==> MeaningMembers(ms, cs)[Fold(name, cs)] == Meaning(ms[i].value, cs))
  {
    if ms != [] {
      CompareStringsEqual(name, ms[0].key, cs);
      LookupMeaning(ms[1..], name, cs);
    }
  }

  /** With unique names, every member is what its name finds. */
  lemma {:induction false} MemberMeaning(ms: seq<Member<Json>>, i: nat, cs: bool)
    requires i < |ms| && UniqueKeys(ms, cs)
    ensures Fold(ms[i].key, cs) in MeaningMembers(ms, cs)
    ensures MeaningMembers(ms, cs)[Fold(ms[i].key, cs)] == Meaning(ms[i].value, cs)
    ensures FindKey(ms, ms[i].key, cs) == i
  {
    LookupMeaning(ms, ms[i].key, cs);
  }

  /** Every name in the map is the name of some member. */
  lemma {:induction false} KeyOrigin(ms: seq<Member<Json>>, k: Str, cs: bool) returns (i: nat)
    requires k in MeaningMembers(ms, cs)
    ensures i < |ms| && Fold(ms[i].key, cs) == k
  {
    if Fold(ms[0].key, cs) == k {
      i := 0;
    } else {
      i := KeyOrigin(ms[1..], k, cs);
      i := i + 1;
    }
  }

  lemma {:induction false} MeaningMembersConcat(a: seq<Member<Json>>, b: seq<Member<Json>>, cs: bool)
    ensures MeaningMembers(a + b, cs) == MeaningMembers(b, cs) + MeaningMembers(a, cs)
  {
    if a == [] {
      assert a + b == b;
    } else {
      assert (a + b)[1..] == a[1..] + b;
      MeaningMembersConcat(a[1..], b, cs);
    }
  }

  /** Appending a member under a fresh name, as `add_item_to_object` does, extends the map. */
  lemma AppendMeaning(ms: seq<Member<Json>>, m: Member<Json>, cs: bool)
    requires Fold(m.key, cs) !in MeaningMembers(ms, cs)
    ensures MeaningMembers(ms + [m], cs) == MeaningMembers(ms, cs)[Fold(m.key, cs) := Meaning(m.value, cs)]
  {
    MeaningMembersConcat(ms, [m], cs);
    assert MeaningMembers([m], cs) == map[Fold(m.key, cs) := Meaning(m.value, cs)];
  }

  /** A list without the member at index `i`: what detaching leaves. */
  function Without<T>(s: seq<T>, i: nat): (r: seq<T>)
    requires i < |s|
    ensures |r| == |s| - 1
    ensures forall j | 0 <= j < |r| :: r[j] == if j < i then s[j] else s[j + 1]
  {
    s[..i] + s[i + 1..]
  }

  /** A list with one more element at an index. */
  function Inserted<T>(s: seq<T>, i: nat, x: T): (r: seq<T>)
    requires i <= |s|
    ensures |r| == |s| + 1
    ensures forall j {:trigger r[j]} | 0 <= j < |r| :: r[j] == if j < i then s[j] else if j == i then x else s[j - 1]
  {
    s[..i] + [x] + s[i..]
  }

  /** Detaching the member a name finds removes that name from the map, when names are unique. */
  lemma WithoutMeaning(ms: seq<Member<Json>>, i: nat, cs: bool)
    requires i < |ms| && UniqueKeys(ms, cs)
    ensures MeaningMembers(Without(ms, i), cs) == MeaningMembers(ms, cs) - {Fold(ms[i].key, cs)}
  {
    assert ms == ms[..i] + ([ms[i]] + ms[i + 1..]);
    DropMiddle(ms[..i], ms[i], ms[i + 1..], cs);
  }

  lemma DropMiddle(front: seq<Member<Json>>, x: Member<Json>, back: seq<Member<Json>>, cs: bool)
    requires forall i | 0 <= i < |front| :: Fold(front[i].key, cs) != Fold(x.key, cs)
    requires forall i | 0 <= i < |back| :: Fold(back[i].key, cs) != Fold(x.key, cs)
    ensures MeaningMembers(front + back, cs) == MeaningMembers(front + ([x] + back), cs) - {Fold(x.key, cs)}
  {
    var k, rest := Fold(x.key, cs), [x] + back;
    assert MeaningMembers(rest, cs) == MeaningMembers(back, cs)[k := Meaning(x.value, cs)] by {
      assert rest[1..] == back;
    }
    MeaningMembersConcat(front, rest, cs);
    MeaningMembersConcat(front, back, cs);
    FreshName(front, k, cs);
    FreshName(back, k, cs);
    DropKey(MeaningMembers(front, cs), MeaningMembers(back, cs), k, Meaning(x.value, cs));
  }

  lemma DropKey<K, V>(a: map<K, V>, b: map<K, V>, k: K, v: V)
    requires k !in a && k !in b
    ensures b + a == (b[k := v] + a) - {k}
  {
  }

  lemma WithoutKeepsUnique<T>(ms: seq<Member<T>>, i: nat, cs: bool)
    requires i < |ms| && UniqueKeys(ms, cs)
    ensures UniqueKeys(Without(ms, i), cs)
  {
    forall p, q | 0 <= p < q < |ms| - 1
      ensures Fold(Without(ms, i)[p].key, cs) != Fold(Without(ms, i)[q].key, cs)
    {
      var p', q' := if p < i then p else p + 1, if q < i then q else q + 1;
      assert Fold(ms[p'].key, cs) != Fold(ms[q'].key, cs);
    }
  }

  lemma FreshName(ms: seq<Member<Json>>, k: Str, cs: bool)
    requires forall i | 0 <= i < |ms| :: Fold(ms[i].key, cs) != k
    ensures k !in MeaningMembers(ms, cs)
  {
    if k in MeaningMembers(ms, cs) {
      var i := KeyOrigin(ms, k, cs);
    }
  }

  /** Lists of uniquely named members with the same members have the same meaning. */
  lemma SameMembersSameMeaning(a: seq<Member<Json>>, b: seq<Member<Json>>, cs: bool)
    requires multiset(a) == multiset(b) && UniqueKeys(a, cs)
    ensures UniqueKeys(b, cs)
    ensures MeaningMembers(a, cs) == MeaningMembers(b, cs)
  {
    PermutationKeepsUnique(a, b, cs);
    SubMeaning(a, b, cs);
    SubMeaning(b, a, cs);
  }

  lemma SubMeaning(a: seq<Member<Json>>, b: seq<Member<Json>>, cs: bool)
    requires multiset(a) == multiset(b) && UniqueKeys(a, cs) && UniqueKeys(b, cs)
    ensures forall k | k in MeaningMembers(a, cs) ::
              k in MeaningMembers(b, cs) && MeaningMembers(b, cs)[k] == MeaningMembers(a, cs)[k]
  {
    forall k | k in MeaningMembers(a, cs)
      ensures k in MeaningMembers(b, cs) && MeaningMembers(b, cs)[k] == MeaningMembers(a, cs)[k]
    {
      var i := KeyOrigin(a, k, cs);
      MemberMeaning(a, i, cs);
      assert a[i] in multiset(b);
      var j :| 0 <= j < |b| && b[j] == a[i];
      MemberMeaning(b, j, cs);
    }
  }

  lemma PermutationKeepsUnique<T>(a: seq<Member<T>>, b: seq<Member<T>>, cs: bool)
    requires multiset(a) == multiset(b) && UniqueKeys(a, cs)
    ensures UniqueKeys(b, cs)
  {
    forall i, j | 0 <= i < j < |b|
      ensures Fold(b[i].key, cs) != Fold(b[j].key, cs)
    {
      assert b[i] in multiset(a) && b[j] in multiset(a);
      if b[i] == b[j] {
        assert b == b[..j] + [b[j]] + b[j + 1..];
        assert b[i] in multiset(b[..j]) by { assert b[..j][i] == b[i]; }
        assert multiset(b)[b[i]] >= 2;
        var p, q := TwoOccurrences(a, b[i]);
        assert false;
      }
    }
  }

  /** The head of a list stands somewhere in every permutation of it, and leaves permutations behind. */
  lemma PermutationStep<T>(a: seq<T>, b: seq<T>) returns (i: nat)
    requires multiset(a) == multiset(b) && a != []
    ensures i < |b| && b == b[..i] + ([a[0]] + b[i + 1..])
    ensures multiset(a[1..]) == multiset(b[..i] + b[i + 1..])
  {
    assert a[0] in multiset(b);
    i :| 0 <= i < |b| && b[i] == a[0];
    assert a == [a[0]] + a[1..];
    assert b == b[..i] + ([a[0]] + b[i + 1..]);
    CancelHead(a[0], a[1..], b[..i], b[i + 1..]);
  }

  lemma CancelHead<T>(x: T, tail: seq<T>, front: seq<T>, back: seq<T>)
    requires multiset([x] + tail) == multiset(front + ([x] + back))
    ensures multiset(tail) == multiset(front + back)
  {
    assert multiset(tail) == multiset([x] + tail) - multiset{x};
    assert multiset(front + back) == multiset(front + ([x] + back)) - multiset{x};
  }

  lemma NothingPermuted<T>(b: seq<T>)
    requires multiset(b) == multiset{}
    ensures b == []
  {
    assert |multiset(b)| == 0;
  }

  lemma TwoOccurrences<T>(s: seq<T>, x: T) returns (p: nat, q: nat)
    requires multiset(s)[x] >= 2
    ensures p < q < |s| && s[p] == x && s[q] == x
  {
    assert x in multiset(s);
    p :| 0 <= p < |s| && s[p] == x;
    var r := s[..p] + s[p + 1..];
    assert s == s[..p] + [s[p]] + s[p + 1..];
    assert multiset(s) == multiset(r) + multiset{x};
    q :| 0 <= q < |r| && r[q] == x;
    if q < p {
      p, q := q, p;
    } else {
      q := q + 1;
    }
  }
}

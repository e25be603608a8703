/** The mergesort of a member list, as a function on sequences. */
module Sorting {
  import opened Bytes
  import opened Json

  function CompareKeys<T>(a: Member<T>, b: Member<T>, cs: bool): int {
    CompareStrings(a.key, b.key, cs)
  }

  /** The test that leaves sorted lists alone: every name is strictly below the next. */
  predicate Ascending<T>(ms: seq<Member<T>>, cs: bool) {
    forall i | 0 <= i < |ms| - 1 :: CompareKeys(ms[i], ms[i + 1], cs) < 0
  }

  /** `sort_list`: the second half starts at the middle, rounded up. */
  function Sort<T>(ms: seq<Member<T>>, cs: bool): seq<Member<T>>
    decreases |ms|
  {
    if Ascending(ms, cs) then ms
    else
      var middle := (|ms| + 1) / 2;
      Merge(Sort(ms[..middle], cs), Sort(ms[middle..], cs), cs)
  }

  /** On equal names the element of the second list goes first. */
  function Merge<T>(a: seq<Member<T>>, b: seq<Member<T>>, cs: bool): seq<Member<T>>
    decreases |a| + |b|
  {
    if a == [] then b
    else if b == [] then a
    else if CompareKeys(a[0], b[0], cs) < 0 then [a[0]] + Merge(a[1..], b, cs)
    else [b[0]] + Merge(a, b[1..], cs)
  }

  ghost predicate Sorted<T>(ms: seq<Member<T>>, cs: bool) {
    forall i, j | 0 <= i < j < |ms| :: CompareKeys(ms[i], ms[j], cs) <= 0
  }

  lemma {:induction false} MergePermutes<T>(a: seq<Member<T>>, b: seq<Member<T>>, cs: bool)
    ensures multiset(Merge(a, b, cs)) == multiset(a) + multiset(b)
    decreases |a| + |b|
  {
    if a != [] && b != [] {
      assert a == [a[0]] + a[1..] && b == [b[0]] + b[1..];
      if CompareKeys(a[0], b[0], cs) < 0 {
        MergePermutes(a[1..], b, cs);
      } else {
        MergePermutes(a, b[1..], cs);
      }
    }
  }

  lemma LongIfUnsorted<T>(ms: seq<Member<T>>, cs: bool)
    requires !Ascending(ms, cs)
    ensures |ms| >= 2
  {
  }

  lemma {:induction false} SortPermutes<T>(ms: seq<Member<T>>, cs: bool)
    ensures multiset(Sort(ms, cs)) == multiset(ms)
    decreases |ms|
  {
    hide Merge, Ascending;
    if !Ascending(ms, cs) {
      LongIfUnsorted(ms, cs);
      var middle := (|ms| + 1) / 2;
      SortPermutes(ms[..middle], cs);
      SortPermutes(ms[middle..], cs);
      MergePermutes(Sort(ms[..middle], cs), Sort(ms[middle..], cs), cs);
      assert ms == ms[..middle] + ms[middle..];
    }
  }

  /** `m` is at or below every element of the list. */
  ghost predicate Below<T>(m: Member<T>, ms: seq<Member<T>>, cs: bool) {
    forall i | 0 <= i < |ms| :: CompareKeys(m, ms[i], cs) <= 0
  }

  lemma BelowTail<T>(m: Member<T>, ms: seq<Member<T>>, cs: bool)
    requires Sorted(ms, cs) && ms != [] && CompareKeys(m, ms[0], cs) <= 0
    ensures Below(m, ms, cs)
  {
    forall i | 0 <= i < |ms|
      ensures CompareKeys(m, ms[i], cs) <= 0
    {
      if i > 0 {
        CompareTransitive(Fold(m.key, cs), Fold(ms[0].key, cs), Fold(ms[i].key, cs));
      }
    }
  }

  lemma BelowMerge<T>(m: Member<T>, a: seq<Member<T>>, b: seq<Member<T>>, cs: bool)
    requires Below(m, a, cs) && Below(m, b, cs)
    ensures Below(m, Merge(a, b, cs), cs)
  {
    MergePermutes(a, b, cs);
    var r := Merge(a, b, cs);
    forall i | 0 <= i < |r|
      ensures CompareKeys(m, r[i], cs) <= 0
    {
      assert r[i] in multiset(r);
      assert r[i] in a || r[i] in b;
    }
  }

  lemma PrependSorted<T>(m: Member<T>, ms: seq<Member<T>>, cs: bool)
    requires Sorted(ms, cs) && Below(m, ms, cs)
    ensures Sorted([m] + ms, cs)
  {
  }

  lemma {:induction false} MergeSorted<T>(a: seq<Member<T>>, b: seq<Member<T>>, cs: bool)
    requires Sorted(a, cs) && Sorted(b, cs)
    ensures Sorted(Merge(a, b, cs), cs)
    decreases |a| + |b|
  {
    if a != [] && b != [] {
      CompareAntisymmetric(Fold(a[0].key, cs), Fold(b[0].key, cs));
      CompareEqual(Fold(a[0].key, cs), Fold(a[0].key, cs));
      CompareEqual(Fold(b[0].key, cs), Fold(b[0].key, cs));
      var swap := CompareKeys(a[0], b[0], cs) >= 0;
      var m := if swap then b[0] else a[0];
      var a', b' := if swap then a else a[1..], if swap then b[1..] else b;
      MergeSorted(a', b', cs);
      BelowTail(m, a, cs);
      BelowTail(m, b, cs);
      BelowMerge(m, a', b', cs);
      PrependSorted(m, Merge(a', b', cs), cs);
    }
  }

  lemma {:induction false} AscendingSorted<T>(ms: seq<Member<T>>, cs: bool)
    requires Ascending(ms, cs)
    ensures Sorted(ms, cs)
    decreases |ms|
  {
    if |ms| > 1 {
      AscendingSorted(ms[1..], cs);
      BelowTail(ms[0], ms[1..], cs);
      PrependSorted(ms[0], ms[1..], cs);
      assert ms == [ms[0]] + ms[1..];
    }
  }

  /** The sort returns the same members, in non-decreasing order of name. */
  lemma {:induction false} SortCorrect<T>(ms: seq<Member<T>>, cs: bool)
    ensures multiset(Sort(ms, cs)) == multiset(ms)
    ensures Sorted(Sort(ms, cs), cs)
    decreases |ms|
  {
    SortPermutes(ms, cs);
    if Ascending(ms, cs) {
      AscendingSorted(ms, cs);
    } else {
      var middle := (|ms| + 1) / 2;
      SortCorrect(ms[..middle], cs);
      SortCorrect(ms[middle..], cs);
      MergeSorted(Sort(ms[..middle], cs), Sort(ms[middle..], cs), cs);
    }
  }

  /** With unique names the order is strict, and unique names stay unique. */
  lemma SortUnique<T>(ms: seq<Member<T>>, cs: bool)
    requires UniqueKeys(ms, cs)
    ensures UniqueKeys(Sort(ms, cs), cs) && Ascending(Sort(ms, cs), cs)
    ensures forall i, j | 0 <= i < j < |ms| :: |Sort(ms, cs)| == |ms| && CompareKeys(Sort(ms, cs)[i], Sort(ms, cs)[j], cs) < 0
  {
    SortCorrect(ms, cs);
    var r := Sort(ms, cs);
    PermutationKeepsUnique(ms, r, cs);
    assert |multiset(r)| == |multiset(ms)|;
    forall i, j | 0 <= i < j < |r|
      ensures CompareKeys(r[i], r[j], cs) < 0
    {
      CompareStringsEqual(r[i].key, r[j].key, cs);
    }
  }

  /** Sorting an object's members does not change what the object means. */
  lemma SortMeaning(ms: seq<Member<Json>>, cs: bool)
    requires UniqueKeys(ms, cs)
    ensures UniqueKeys(Sort(ms, cs), cs)
    ensures MeaningMembers(Sort(ms, cs), cs) == MeaningMembers(ms, cs)
  {
    SortCorrect(ms, cs);
    SameMembersSameMeaning(ms, Sort(ms, cs), cs);
  }
}

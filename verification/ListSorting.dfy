/** `sort_list` on the nodes themselves: the links are rearranged, the nodes stay what they are. */
module ListSorting {
  import opened Bytes
  import opened Json
  import opened ChildLists
  import opened Sorting

  /** The nodes with their names, as the sort on sequences takes them. */
  ghost function Named(nodes: seq<Item>): (r: seq<Member<Item>>)
    reads nodes`key
    ensures |r| == |nodes| && forall i {:trigger r[i]} | 0 <= i < |nodes| :: r[i] == Member(nodes[i].key, nodes[i])
    decreases |nodes|
  {
    if nodes == [] then [] else [Member(nodes[0].key, nodes[0])] + Named(nodes[1..])
  }

  /** The order in which sorting leaves the nodes. */
  ghost function SortedNodes(nodes: seq<Item>, cs: bool): seq<Item>
    reads nodes`key
  {
    Values(Sort(Named(nodes), cs))
  }

  function Values<T>(ms: seq<Member<T>>): (r: seq<T>)
    ensures |r| == |ms| && forall i {:trigger r[i]} | 0 <= i < |ms| :: r[i] == ms[i].value
  {
    if ms == [] then [] else [ms[0].value] + Values(ms[1..])
  }

  /** Nodes in a row, whatever the last one's `next`. */
  ghost predicate Row(nodes: seq<Item>)
    reads nodes`next
  {
    forall i {:trigger nodes[i].next} | 0 <= i < |nodes| - 1 :: nodes[i].next == nodes[i + 1]
  }

  /** The loop that leaves sorted lists alone. */
  method IsAscending(list: Item, cs: bool, ghost nodes: seq<Item>) returns (r: bool)
    requires nodes != [] && list == nodes[0] && Forward(nodes)
    ensures r <==> Ascending(Named(nodes), cs)
  {
    var current := list;
    ghost var i := 0;
    while current.next != null && CompareStrings(current.key, current.next.key, cs) < 0
      invariant 0 <= i < |nodes| && current == nodes[i]
      invariant forall k | 0 <= k < i :: CompareKeys(Named(nodes)[k], Named(nodes)[k + 1], cs) < 0
      decreases |nodes| - i
    {
      assert nodes[i].next == At(nodes, i + 1);
      current := current.next;
      i := i + 1;
    }
    assert nodes[i].next == At(nodes, i + 1);
    r := current.next == null;
    if !r { assert CompareKeys(Named(nodes)[i], Named(nodes)[i + 1], cs) >= 0; }
  }

  /** The two cursors: when the fast one runs out, the slow one stands at the middle. */
  method FindMiddle(list: Item, ghost nodes: seq<Item>) returns (second: Item?)
    requires nodes != [] && list == nodes[0] && Forward(nodes)
    ensures second == At(nodes, (|nodes| + 1) / 2)
  {
    var current: Item? := list;
    second := list;
    ghost var i, k := 0, 0;
    while current != null
      invariant 0 <= i && 0 <= k <= |nodes| && k == (if 2 * i <= |nodes| then 2 * i else |nodes|) && i <= (|nodes| + 1) / 2
      invariant second == At(nodes, i) && current == At(nodes, k)
      decreases |nodes| - k
    {
      assert nodes[i].next == At(nodes, i + 1) && nodes[k].next == At(nodes, k + 1);
      second := second.next;
      current := current.next;
      i, k := i + 1, k + 1;
      if current != null {
        assert nodes[k].next == At(nodes, k + 1);
        current := current.next;
        k := k + 1;
      }
    }
  }

  // ---- merging ----

  /** What the merge loop has made of the two lists: a row of nodes, and what is left of each. */
  ghost predicate Merging(done: seq<Item>, a: seq<Item>, b: seq<Item>)
    reads done`next, done`prev, a`next, a`prev, b`next, b`prev
  {
    && Row(done) && Backward(done)
    && Forward(a) && Backward(a) && Forward(b) && Backward(b)
    && Separate(done, a) && Separate(done, b) && Separate(a, b)
    && Apart(done) && Apart(a) && Apart(b)
  }

  ghost predicate Separate(a: seq<Item>, b: seq<Item>) {
    forall i, j | 0 <= i < |a| && 0 <= j < |b| :: a[i] != b[j]
  }

  /** The head of `a` goes to the end of the row. */
  method LinkNext(tail: Item, smaller: Item, ghost done: seq<Item>, ghost a: seq<Item>, ghost b: seq<Item>)
    requires Merging(done, a, b) && a != [] && smaller == a[0] && done != [] && tail == done[|done| - 1]
    modifies tail`next, smaller`prev
    ensures Merging(done + [smaller], a[1..], b) && smaller.next == At(a[1..], 0)
  {
    Tail(a);
    tail.next := smaller;
    smaller.prev := tail;
  }

  lemma StartRow(a: seq<Item>, b: seq<Item>)
    requires Merging([], a, b) && a != []
    ensures Merging([] + [a[0]], a[1..], b) && a[0].next == At(a[1..], 0)
  {
    Tail(a);
  }

  lemma Tail(a: seq<Item>)
    requires a != [] && Forward(a) && Backward(a) && Apart(a)
    ensures Forward(a[1..]) && Backward(a[1..]) && Apart(a[1..]) && a[0] !in a[1..] && a[0].next == At(a[1..], 0)
  {
    forall i | 0 <= i < |a[1..]|
      ensures a[1..][i].next == At(a[1..], i + 1) && (i > 0 ==> a[1..][i].prev == a[1..][i - 1]) && a[1..][i] != a[0]
    {
      assert a[i + 1].next == At(a, i + 2);
      assert i > 0 ==> a[i + 1].prev == a[i];
    }
    forall i, j | 0 <= i < j < |a[1..]|
      ensures a[1..][i] != a[1..][j]
    {
      assert a[i + 1] != a[j + 1];
    }
  }

  /** The rest of one list goes to the end of the row. */
  method LinkRest(tail: Item, rest: Item, ghost done: seq<Item>, ghost a: seq<Item>)
    requires Merging(done, a, []) && done != [] && a != []
    requires tail == done[|done| - 1] && rest == a[0]
    modifies tail`next, rest`prev
    ensures Forward(done + a) && Backward(done + a)
  {
    tail.next := rest;
    rest.prev := tail;
  }

  lemma MergeStep(a: seq<Member<Item>>, b: seq<Member<Item>>, cs: bool)
    ensures a != [] && b != [] ==>
              Values(Merge(a, b, cs)) ==
              if CompareKeys(a[0], b[0], cs) < 0 then [a[0].value] + Values(Merge(a[1..], b, cs))
              else [b[0].value] + Values(Merge(a, b[1..], cs))
    ensures a == [] ==> Values(Merge(a, b, cs)) == Values(b)
    ensures b == [] ==> Values(Merge(a, b, cs)) == Values(a)
  {
    hide CompareKeys;
  }

  lemma {:induction false} ValuesNamed(nodes: seq<Item>)
    ensures Values(Named(nodes)) == nodes
    decreases |nodes|
  {
    if nodes != [] { ValuesNamed(nodes[1..]); }
  }

  lemma NamedTail(nodes: seq<Item>)
    requires nodes != []
    ensures Named(nodes)[1..] == Named(nodes[1..]) && Named(nodes)[0] == Member(nodes[0].key, nodes[0])
  {
  }

  lemma Swapped(done: seq<Item>, a: seq<Item>, b: seq<Item>)
    ensures Merging(done, a, b) <==> Merging(done, b, a)
  {
  }

  lemma HeadsDiffer(done: seq<Item>, a: seq<Item>, b: seq<Item>)
    requires Merging(done, a, b) && a != [] && b != []
    ensures a[0] != b[0]
  {
  }

  /** What is still to come, when the smaller of two heads has gone. */
  lemma GoalStep(done: seq<Item>, a: seq<Item>, b: seq<Item>, cs: bool)
    requires a != [] && b != []
    ensures var first := CompareStrings(a[0].key, b[0].key, cs) < 0;
            done + Values(Merge(Named(a), Named(b), cs)) ==
            (done + [if first then a[0] else b[0]]) +
            Values(Merge(Named(if first then a[1..] else a), Named(if first then b else b[1..]), cs))
  {
    hide Merge, Values, Named, CompareStrings;
    MergeStep(Named(a), Named(b), cs);
    NamedTail(a);
    NamedTail(b);
    var first := CompareStrings(a[0].key, b[0].key, cs) < 0;
    var rest := Values(Merge(Named(if first then a[1..] else a), Named(if first then b else b[1..]), cs));
    var x := if first then a[0] else b[0];
    assert done + ([x] + rest) == (done + [x]) + rest;
  }

  /** One turn of the merge loop: the smaller head goes to the end of the row. */
  method MergeTurn(tail: Item?, first0: Item, second0: Item, cs: bool, ghost done: seq<Item>, ghost a0: seq<Item>, ghost b0: seq<Item>)
    returns (smaller: Item, first: Item?, second: Item?, ghost a: seq<Item>, ghost b: seq<Item>)
    requires Merging(done, a0, b0) && a0 != [] && b0 != [] && first0 == a0[0] && second0 == b0[0]
    requires tail == if done == [] then null else done[|done| - 1]
    modifies (if tail == null then {} else {tail})`next, first0`prev, second0`prev
    ensures Merging(done + [smaller], a, b) && first == At(a, 0) && second == At(b, 0)
    ensures (smaller == first0 && a == a0[1..] && b == b0) || (smaller == second0 && a == a0 && b == b0[1..])
    ensures done + Values(Merge(Named(a0), Named(b0), cs)) == (done + [smaller]) + Values(Merge(Named(a), Named(b), cs))
  {
    hide Merge, Values, Named, CompareStrings, Merging, Apart, Forward, Backward;
    Swapped(done, a0, b0);
    HeadsDiffer(done, a0, b0);
    GoalStep(done, a0, b0, cs);
    first, second, a, b := first0, second0, a0, b0;
    smaller := if CompareStrings(first.key, second.key, cs) < 0 then first else second;
    ghost var lead, other := if smaller == first then a else b, if smaller == first then b else a;
    if tail == null {
      StartRow(lead, other);
    } else {
      LinkNext(tail, smaller, done, lead, other);
    }
    if first == smaller {
      first := first.next;
      a := a[1..];
    } else {
      second := second.next;
      b := b[1..];
    }
    Swapped(done + [smaller], a, b);
  }

  /** The merge loop and what follows it. */
  method MergeLists(list1: Item, list2: Item, cs: bool, ghost a0: seq<Item>, ghost b0: seq<Item>) returns (result: Item?, ghost merged: seq<Item>)
    requires Merging([], a0, b0) && a0 != [] && b0 != [] && list1 == a0[0] && list2 == b0[0]
    modifies a0`next, a0`prev, b0`next, b0`prev
    ensures merged == Values(Merge(Named(a0), Named(b0), cs))
    ensures Forward(merged) && Backward(merged) && result == At(merged, 0)
  {
    hide Merge, Values, Named, CompareStrings, Merging, Apart, Forward, Backward;
    var first: Item?, second: Item?, tail: Item? := list1, list2, null;
    ghost var done: seq<Item>, a: seq<Item>, b: seq<Item> := [], a0, b0;
    merged := Values(Merge(Named(a0), Named(b0), cs));
    assert [] + merged == merged;
    result := null;
    while first != null && second != null
      invariant Merging(done, a, b)
      invariant first == At(a, 0) && second == At(b, 0) && result == At(done, 0)
      invariant tail == if done == [] then null else done[|done| - 1]
      invariant tail != null ==> tail in a0 || tail in b0
      invariant (a != [] || b != []) && (done == [] ==> a != [] && b != [])
      invariant forall x | x in a :: x in a0
      invariant forall x | x in b :: x in b0
      invariant merged == done + Values(Merge(Named(a), Named(b), cs))
      decreases |a| + |b|
    {
      assert a[0] in a && b[0] in b;
      var smaller;
      smaller, first, second, a, b := MergeTurn(tail, first, second, cs, done, a, b);
      if result == null { result := smaller; }
      tail := smaller;
      done := done + [smaller];
    }
    assert a != [] ==> a[0] in a;
    assert b != [] ==> b[0] in b;
    MergeEnd(tail, first, second, cs, done, a, b);
  }

  /** The rest of the list that is left goes to the end of the row. */
  method MergeEnd(tail: Item, first: Item?, second: Item?, cs: bool, ghost done: seq<Item>, ghost a: seq<Item>, ghost b: seq<Item>)
    requires Merging(done, a, b) && done != [] && tail == done[|done| - 1]
    requires first == At(a, 0) && second == At(b, 0) && (a == [] || b == []) && (a != [] || b != [])
    modifies tail`next, (if first == null then {} else {first})`prev, (if second == null then {} else {second})`prev
    ensures var merged := done + Values(Merge(Named(a), Named(b), cs)); Forward(merged) && Backward(merged)
  {
    hide Merge, Values, Named, Merging, Apart, Forward, Backward;
    MergeStep(Named(a), Named(b), cs);
    ValuesNamed(a);
    ValuesNamed(b);
    if first != null { LinkRest(tail, first, done, a); }
    if second != null {
      Swapped(done, a, b);
      LinkRest(tail, second, done, b);
    }
  }

  // ---- the sort ----

  lemma {:induction false} NamedSlices(nodes: seq<Item>, m: nat)
    requires m <= |nodes|
    ensures Named(nodes)[..m] == Named(nodes[..m]) && Named(nodes)[m..] == Named(nodes[m..])
  {
    hide Named;
  }

  lemma NamedValues(ms: seq<Member<Item>>)
    requires forall m | m in ms :: m.key == m.value.key
    ensures Named(Values(ms)) == ms
  {
    hide Named, Values;
    forall i | 0 <= i < |ms|
      ensures Named(Values(ms))[i] == ms[i]
    {
      assert ms[i] in ms;
    }
  }

  /** Sorting gives the same nodes, in non-decreasing order of name. */
  lemma SortedNodesCorrect(nodes: seq<Item>, cs: bool)
    ensures multiset(SortedNodes(nodes, cs)) == multiset(nodes)
    ensures Sorted(Named(SortedNodes(nodes, cs)), cs)
    ensures Named(SortedNodes(nodes, cs)) == Sort(Named(nodes), cs)
  {
    hide Named, Values, Sort, Sorted;
    var ms := Sort(Named(nodes), cs);
    SortCorrect(Named(nodes), cs);
    forall m | m in ms
      ensures m.key == m.value.key
    {
      assert m in multiset(ms);
      assert m in Named(nodes);
    }
    NamedValues(ms);
    SortPermutesValues(Named(nodes), cs);
    ValuesNamed(nodes);
  }

  lemma {:induction false} ValuesConcat<T>(a: seq<Member<T>>, b: seq<Member<T>>)
    ensures Values(a + b) == Values(a) + Values(b)
  {
    hide Values;
  }

  lemma FirstValue<T>(a: seq<Member<T>>)
    requires a != []
    ensures multiset(Values(a)) == multiset{a[0].value} + multiset(Values(a[1..]))
  {
  }

  lemma {:induction false} MergePermutesValues<T>(a: seq<Member<T>>, b: seq<Member<T>>, cs: bool)
    ensures multiset(Values(Merge(a, b, cs))) == multiset(Values(a)) + multiset(Values(b))
    decreases |a| + |b|
  {
    hide Values, CompareKeys;
    if a == [] || b == [] {
      ValuesConcat(a, b);
      assert a + b == if a == [] then b else a;
    } else {
      FirstValue(a);
      FirstValue(b);
      FirstValue(Merge(a, b, cs));
      if CompareKeys(a[0], b[0], cs) < 0 {
        MergePermutesValues(a[1..], b, cs);
      } else {
        MergePermutesValues(a, b[1..], cs);
      }
    }
  }

  lemma {:induction false} SortPermutesValues<T>(ms: seq<Member<T>>, cs: bool)
    ensures multiset(Values(Sort(ms, cs))) == multiset(Values(ms))
    decreases |ms|
  {
    hide Values, Merge, Ascending;
    if !Ascending(ms, cs) {
      var m := (|ms| + 1) / 2;
      if |ms| > 1 {
        SortPermutesValues(ms[..m], cs);
        SortPermutesValues(ms[m..], cs);
      } else {
        ShortAscends(ms, cs);
      }
      MergePermutesValues(Sort(ms[..m], cs), Sort(ms[m..], cs), cs);
      ValuesConcat(ms[..m], ms[m..]);
      assert ms[..m] + ms[m..] == ms;
    }
  }

  lemma ShortAscends<T>(ms: seq<Member<T>>, cs: bool)
    requires |ms| <= 1
    ensures Ascending(ms, cs)
  {
  }

  /** Lists of the same nodes are as separate. */
  lemma SameSeparate(a: seq<Item>, b: seq<Item>, a': seq<Item>, b': seq<Item>)
    requires Separate(a, b) && multiset(a) == multiset(a') && multiset(b) == multiset(b')
    ensures Separate(a', b')
    ensures forall x | x in a' :: x in a
    ensures forall x | x in b' :: x in b
    ensures |a'| == |a| && |b'| == |b|
  {
    assert |multiset(a)| == |multiset(a')| && |multiset(b)| == |multiset(b')|;
    forall x | x in a' ensures x in a { assert x in multiset(a); }
    forall x | x in b' ensures x in b { assert x in multiset(b); }
    forall i, j | 0 <= i < |a'| && 0 <= j < |b'|
      ensures a'[i] != b'[j]
    {
      assert a'[i] in a && b'[j] in b;
    }
  }

  /** `sort_list`: terminates on every well linked list, and leaves the nodes in sorted order, ending in NULL, each but the head pointing back to the one before. */
  method SortList(list: Item?, cs: bool, ghost nodes: seq<Item>) returns (result: Item?, ghost sorted: seq<Item>)
    requires list == At(nodes, 0) && Forward(nodes) && Backward(nodes)
    modifies nodes`next, nodes`prev
    ensures sorted == SortedNodes(nodes, cs)
    ensures result == At(sorted, 0) && Forward(sorted) && Backward(sorted)
    decreases |nodes|, 1
  {
    hide Named, Values, Sort, Sorted, Forward, Backward, Apart, Row, Merging, Separate;
    sorted := SortedNodes(nodes, cs);
    if list == null {
      AscendingStays(nodes, cs);
      return list, sorted;
    }
    var ascending := IsAscending(list, cs, nodes);
    if ascending {
      AscendingStays(nodes, cs);
      return list, sorted;
    }
    LongEnough(nodes, cs);
    ghost var m := (|nodes| + 1) / 2;
    ghost var a, b := nodes[..m], nodes[m..];
    var second := FindMiddle(list, nodes);
    Split(second, nodes, m);
    SortByHalves(nodes, m, cs);
    result, sorted := SortHalves(list, second, cs, a, b);
  }

  lemma NoneIn(a: seq<Item>, b: seq<Item>)
    requires Separate(a, b)
    ensures forall i {:trigger a[i]} | 0 <= i < |a| :: a[i] !in b
    ensures forall i {:trigger b[i]} | 0 <= i < |b| :: b[i] !in a
  {
  }

  /** Both halves are sorted, and then merged. */
  method SortHalves(list1: Item?, list2: Item?, cs: bool, ghost a: seq<Item>, ghost b: seq<Item>) returns (result: Item?, ghost sorted: seq<Item>)
    requires list1 == At(a, 0) && Forward(a) && Backward(a) && a != []
    requires list2 == At(b, 0) && Forward(b) && Backward(b) && b != []
    requires Separate(a, b)
    modifies a`next, a`prev, b`next, b`prev
    ensures sorted == Values(Merge(Sort(Named(a), cs), Sort(Named(b), cs), cs))
    ensures result == At(sorted, 0) && Forward(sorted) && Backward(sorted)
    decreases |a| + |b|, 0
  {
    hide Named, Values, Sort, Merge, Sorted, Row, Merging, Apart, Separate;
    ghost var sa, sb;
    var first, second;
    NoneIn(a, b);
    first, sa := SortList(list1, cs, a);
    SortedNodesCorrect(a, cs);
    SameSeparate(a, b, sa, b);
    NoneIn(sa, b);
    second, sb := SortList(list2, cs, b);
    SortedNodesCorrect(b, cs);
    ReadyToMerge(a, b, sa, sb);
    result, sorted := MergeLists(first, second, cs, sa, sb);
  }

  lemma AscendingStays(nodes: seq<Item>, cs: bool)
    requires Ascending(Named(nodes), cs)
    ensures SortedNodes(nodes, cs) == nodes
  {
    hide Named, Values;
    ValuesNamed(nodes);
  }

  lemma LongEnough(nodes: seq<Item>, cs: bool)
    requires !Ascending(Named(nodes), cs)
    ensures |nodes| >= 2
  {
    hide Named;
  }

  lemma SortByHalves(nodes: seq<Item>, m: nat, cs: bool)
    requires !Ascending(Named(nodes), cs) && m == (|nodes| + 1) / 2
    ensures SortedNodes(nodes, cs) == Values(Merge(Sort(Named(nodes[..m]), cs), Sort(Named(nodes[m..]), cs), cs))
  {
    hide Named, Values, Merge, Ascending;
    NamedSlices(nodes, m);
  }

  lemma ReadyToMerge(a: seq<Item>, b: seq<Item>, sa: seq<Item>, sb: seq<Item>)
    requires Separate(a, b) && multiset(a) == multiset(sa) && multiset(b) == multiset(sb)
    requires Forward(sa) && Backward(sa) && Forward(sb) && Backward(sb)
    ensures Merging([], sa, sb) && |sa| == |a| && |sb| == |b|
    ensures forall i {:trigger sa[i]} | 0 <= i < |sa| :: sa[i] in a
    ensures forall i {:trigger sb[i]} | 0 <= i < |sb| :: sb[i] in b
  {
    SameSeparate(a, b, sa, sb);
    ForwardApart(sa);
    ForwardApart(sb);
  }

  /** The list is cut before its middle node. */
  method Split(second: Item?, ghost nodes: seq<Item>, ghost m: nat)
    requires Forward(nodes) && Backward(nodes) && 0 < m < |nodes| && second == nodes[m]
    modifies nodes`next, nodes`prev
    ensures Forward(nodes[..m]) && Backward(nodes[..m]) && Forward(nodes[m..]) && Backward(nodes[m..])
    ensures Separate(nodes[..m], nodes[m..])
  {
    ForwardApart(nodes);
    assert nodes[m].prev == nodes[m - 1];
    if second != null && second.prev != null {
      second.prev.next := null;
      second.prev := null;
    }
  }
}

/** `sort_object` on a tree: the subtrees change places, and each stays what it is. */
module ItemSorting {
  import opened Bytes
  import opened Json
  import opened Sorting
  import opened ChildLists
  import opened ItemTrees
  import opened ItemPaths
  import opened ItemWalks
  import opened ItemEdits
  import Lists = ListSorting

  // ---- sorting does not look at the values ----

  function MapValues<T, U>(ms: seq<Member<T>>, f: T -> U): (r: seq<Member<U>>)
    ensures |r| == |ms| && forall i {:trigger r[i]} | 0 <= i < |ms| :: r[i] == Member(ms[i].key, f(ms[i].value))
  {
    seq(|ms|, i requires 0 <= i < |ms| => Member(ms[i].key, f(ms[i].value)))
  }

  lemma {:induction false} MergeMap<T, U>(a: seq<Member<T>>, b: seq<Member<T>>, f: T -> U, cs: bool)
    ensures Merge(MapValues(a, f), MapValues(b, f), cs) == MapValues(Merge(a, b, cs), f)
    decreases |a| + |b|
  {
    hide CompareStrings;
    if a != [] && b != [] {
      if CompareKeys(a[0], b[0], cs) < 0 {
        assert MapValues(a, f)[1..] == MapValues(a[1..], f);
        MergeMap(a[1..], b, f, cs);
      } else {
        assert MapValues(b, f)[1..] == MapValues(b[1..], f);
        MergeMap(a, b[1..], f, cs);
      }
    }
  }

  lemma AscendingMap<T, U>(ms: seq<Member<T>>, f: T -> U, cs: bool)
    ensures Ascending(MapValues(ms, f), cs) <==> Ascending(ms, cs)
  {
    forall i | 0 <= i < |ms| - 1
      ensures CompareKeys(MapValues(ms, f)[i], MapValues(ms, f)[i + 1], cs) == CompareKeys(ms[i], ms[i + 1], cs)
    {
    }
  }

  lemma MapSlices<T, U>(ms: seq<Member<T>>, f: T -> U, m: nat)
    requires m <= |ms|
    ensures MapValues(ms, f)[..m] == MapValues(ms[..m], f) && MapValues(ms, f)[m..] == MapValues(ms[m..], f)
  {
    hide MapValues;
  }

  lemma {:induction false} SortMap<T, U>(ms: seq<Member<T>>, f: T -> U, cs: bool)
    ensures Sort(MapValues(ms, f), cs) == MapValues(Sort(ms, cs), f)
    decreases |ms|
  {
    hide Ascending, Merge, MapValues;
    AscendingMap(ms, f, cs);
    if !Ascending(ms, cs) {
      LongIfUnsorted(ms, cs);
      var m := (|ms| + 1) / 2;
      MapSlices(ms, f, m);
      SortMap(ms[..m], f, cs);
      SortMap(ms[m..], f, cs);
      MergeMap(Sort(ms[..m], cs), Sort(ms[m..], cs), f, cs);
    }
  }

  // ---- sorted subtrees ----

  /** The trees under the names of their roots, each with the value it stands for. */
  ghost function Tagged(cs: seq<Shape>): (r: seq<Member<(Shape, Json)>>)
    reads Roots(cs)`kind, Roots(cs)`number, Roots(cs)`text, Roots(cs)`key, BelowAll(cs)
    ensures |r| == |cs| && forall i {:trigger r[i]} | 0 <= i < |cs| :: r[i] == Member(Roots(cs)[i].key, (cs[i], Values(cs)[i]))
    decreases cs
  {
    if cs == [] then []
    else
      OneOf(cs);
      [Member(cs[0].item.key, (cs[0], JsonOf(cs[0])))] + Tagged(cs[1..])
  }

  ghost function SortedShapes(cs: seq<Shape>, mode: bool): seq<Shape>
    reads Roots(cs)`kind, Roots(cs)`number, Roots(cs)`text, Roots(cs)`key, BelowAll(cs)
  {
    Lists.Values(MapValues(Sort(Tagged(cs), mode), (p: (Shape, Json)) => p.0))
  }

  lemma SortedRoots(cs: seq<Shape>, mode: bool)
    ensures Roots(SortedShapes(cs, mode)) == Lists.SortedNodes(Roots(cs), mode)
  {
    hide Sort;
    var f := (p: (Shape, Json)) => p.0.item;
    assert MapValues(Tagged(cs), f) == Lists.Named(Roots(cs));
    SortMap(Tagged(cs), f, mode);
  }

  lemma SortedAre(cs: seq<Shape>, mode: bool)
    ensures multiset(SortedShapes(cs, mode)) == multiset(cs)
  {
    hide Sort, Tagged;
    var f := (p: (Shape, Json)) => p.0;
    var keyed := MapValues(Tagged(cs), f);
    assert Lists.Values(keyed) == cs;
    SortMap(Tagged(cs), f, mode);
    Lists.SortPermutesValues(keyed, mode);
  }

  /** After the sort the trees still bear the names and stand for the values they are tagged with. */
  lemma StillTagged(cs: seq<Shape>, mode: bool)
    ensures var sorted := Sort(Tagged(cs), mode);
            forall i {:trigger sorted[i]} | 0 <= i < |sorted| ::
              sorted[i].key == sorted[i].value.0.item.key && sorted[i].value.1 == JsonOf(sorted[i].value.0)
  {
    hide Sort, JsonOf, Values;
    var sorted := Sort(Tagged(cs), mode);
    MembersAt(cs);
    SortPermutes(Tagged(cs), mode);
    forall i | 0 <= i < |sorted|
      ensures sorted[i].key == sorted[i].value.0.item.key && sorted[i].value.1 == JsonOf(sorted[i].value.0)
    {
      assert sorted[i] in multiset(Tagged(cs));
      assert sorted[i] in Tagged(cs);
    }
  }

  lemma SortedMembers(cs: seq<Shape>, mode: bool)
    ensures Members(SortedShapes(cs, mode)) == Sort(Members(cs), mode)
  {
    hide Sort, JsonOf, Values, Members, Tagged, MapValues;
    var f := (p: (Shape, Json)) => p.1;
    MembersAt(cs);
    assert MapValues(Tagged(cs), f) == Members(cs);
    SortMap(Tagged(cs), f, mode);
    StillTagged(cs, mode);
    MembersAt(SortedShapes(cs, mode));
    var ds, sorted := SortedShapes(cs, mode), Sort(Tagged(cs), mode);
    forall i | 0 <= i < |ds|
      ensures Members(ds)[i] == MapValues(sorted, f)[i]
    {
      assert ds[i] == sorted[i].value.0;
    }
  }

  lemma {:induction false} MembersAt(cs: seq<Shape>)
    ensures forall i {:trigger cs[i]} | 0 <= i < |cs| ::
              Members(cs)[i] == Member(cs[i].item.key, JsonOf(cs[i])) && Values(cs)[i] == JsonOf(cs[i])
    decreases cs
  {
    hide JsonOf;
    if cs != [] { MembersAt(cs[1..]); }
  }

  lemma {:induction false} PermutedForest(cs: seq<Shape>, ds: seq<Shape>, tails: bool)
    requires multiset(cs) == multiset(ds) && Forest(cs, tails)
    ensures Forest(ds, tails) && NodesAll(ds) == NodesAll(cs)
    decreases cs
  {
    hide Nodes, NodesAll, Forest, Tree;
    if cs == [] {
      NothingPermuted(ds);
    } else {
      var i := PermutationStep(cs, ds);
      assert [] + ([cs[0]] + cs[1..]) == cs && [] + cs[1..] == cs[1..];
      MiddleNodes([], cs[0], cs[1..]);
      MiddleForest([], cs[0], cs[1..], tails);
      MiddleNodes(ds[..i], cs[0], ds[i + 1..]);
      MiddleForest(ds[..i], cs[0], ds[i + 1..], tails);
      PermutedForest(cs[1..], ds[..i] + ds[i + 1..], tails);
    }
  }

  lemma LinkSorted(parent: Item, nodes: seq<Item>)
    requires parent.child == At(nodes, 0) && Forward(nodes) && Backward(nodes) && parent !in nodes
    ensures Linked(parent, nodes, false)
  {
    ForwardApart(nodes);
  }

  lemma Resorted(parent: Item, cs: seq<Shape>, mode: bool)
    requires Forest(cs, false) && parent !in NodesAll(cs) && Container(parent.kind)
    requires var nodes := Lists.SortedNodes(Roots(cs), mode); parent.child == At(nodes, 0) && Forward(nodes) && Backward(nodes)
    ensures var ds := SortedShapes(cs, mode);
            && Tree(Shape(parent, ds), false) && NodesAll(ds) == NodesAll(cs) && multiset(ds) == multiset(cs)
            && Members(ds) == Sort(Members(cs), mode)
  {
    hide Tree, Forest, NodesAll, BelowAll, Members, Values, JsonOf, Roots, Linked, Sort, SortedShapes;
    var ds := SortedShapes(cs, mode);
    SortedMembers(cs, mode);
    SortedRoots(cs, mode);
    SortedAre(cs, mode);
    PermutedForest(cs, ds, false);
    RootsAndBelow(ds);
    LinkSorted(parent, Roots(ds));
    MakeTree(Shape(parent, ds), false);
  }

  /** `sort_object`: the members are put in the order of the sort; the new head does not point back to the tail. */
  method SortObject(parent: Item, mode: bool, ghost s: Shape) returns (ghost s': Shape)
    requires Tree(s, false) && s.item == parent && Container(parent.kind)
    modifies parent`child, Roots(s.children)`next, Roots(s.children)`prev
    ensures Tree(s', false) && s'.item == parent && NodesAll(s'.children) == NodesAll(s.children)
    ensures Members(s'.children) == Sort(old(Members(s.children)), mode)
    ensures multiset(s'.children) == multiset(s.children)
  {
    hide Tree, Forest, NodesAll, BelowAll, Members, Values, JsonOf, Roots, Linked, Sort, SortedShapes, Lists.SortedNodes, Forward, Backward;
    FirstChild(s, false);
    Rooted(s, false);
    RootsApart(s, false);
    TreeExists(s);
    ghost var sorted;
    parent.child, sorted := Lists.SortList(parent.child, mode, Roots(s.children));
    assert Lists.SortedNodes(Roots(s.children), mode) == sorted;
    Resorted(parent, s.children, mode);
    s' := Shape(parent, SortedShapes(s.children, mode));
  }
}

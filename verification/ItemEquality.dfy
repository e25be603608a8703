/** `cJSON_Compare` on the items: two loops of lookups for objects. */
module ItemEquality {
  import opened Bytes
  import opened Json
  import opened ChildLists
  import opened ItemTrees
  import opened ItemWalks
  import opened ItemComparing
  import C = Comparing

  /** `cJSON_Compare`: an item is equal to itself, and else the values decide. */
  method CompareItems(a: Item, b: Item, cs: bool, ghost s: Shape, ghost u: Shape) returns (same: bool)
    requires Tree(s, false) && Tree(u, false) && s.item == a && u.item == b && (a == b || Nodes(s) !! Nodes(u))
    ensures same <==> a == b || C.CompareDeep(JsonOf(s), JsonOf(u), cs)
    decreases |Nodes(s)| + |Nodes(u)|, 2
  {
    hide Tree, Forest, NodesAll, Nodes, Members, Values, JsonOf, BelowAll, Roots, C.Covers;
    KindOf(s, false);
    KindOf(u, false);
    ScalarOf(s);
    ScalarOf(u);
    if a.kind != b.kind || a == b { return a == b; }
    match a.kind
    case StringItem => same := Compare(a.text, b.text) == 0;
    case NumberItem => same := a.number == b.number;
    case ArrayItem => same := CompareArrays(a, b, cs, s, u);
    case ObjectItem =>
      TreeExists(s);
      TreeExists(u);
      same := Covered(a, b, cs, s, u);
      KindOf(s, false);
      KindOf(u, false);
      if same { same := Covered(b, a, cs, u, s); }
    case _ => same := true;
  }

  /** The comparison of two children. */
  method CompareAtBoth(x: Item, y: Item, cs: bool, ghost s: Shape, ghost i: nat, ghost u: Shape, ghost j: nat) returns (same: bool)
    requires Tree(s, false) && Tree(u, false) && Nodes(s) !! Nodes(u)
    requires i < |s.children| && j < |u.children| && x == Roots(s.children)[i] && y == Roots(u.children)[j]
    ensures Tree(s, false) && Tree(u, false) && JsonOf(s) == old(JsonOf(s)) && JsonOf(u) == old(JsonOf(u))
    ensures same <==> C.CompareDeep(old(Values(s.children)[i]), old(Values(u.children)[j]), cs)
    decreases |Nodes(s)| + |Nodes(u)|, 0, 0
  {
    hide Tree, Forest, NodesAll, Nodes, Members, Values, JsonOf, BelowAll, Roots, C.CompareDeep;
    TreeExists(s);
    TreeExists(u);
    ReadyAt(s, i);
    ReadyAt(u, j);
    ghost var c, d := s.children[i], u.children[j];
    ApartAt(s, i, d, u);
    TreeExists(c);
    TreeExists(d);
    same := CompareItems(x, y, cs, c, d);
  }

  /** The loop over two arrays. */
  method CompareArrays(a: Item, b: Item, cs: bool, ghost s: Shape, ghost u: Shape) returns (same: bool)
    requires Tree(s, false) && Tree(u, false) && s.item == a && u.item == b && Nodes(s) !! Nodes(u) && a.kind == ArrayItem && b.kind == ArrayItem
    ensures same <==> C.CompareDeep(JsonOf(s), JsonOf(u), cs)
    decreases |Nodes(s)| + |Nodes(u)|, 1
  {
    hide Tree, Forest, NodesAll, Nodes, Members, Values, JsonOf, BelowAll, Roots, C.CompareDeep;
    KindOf(s, false);
    KindOf(u, false);
    ghost var v, w, i: nat := JsonOf(s), JsonOf(u), 0;
    DeepArrays(v, w, cs);
    FirstChild(s, false);
    FirstChild(u, false);
    var x, y := a.child, b.child;
    while x != null && y != null
      invariant i <= |s.children| && i <= |u.children| && x == At(Roots(s.children), i) && y == At(Roots(u.children), i)
      invariant Tree(s, false) && Tree(u, false) && JsonOf(s) == v && JsonOf(u) == w
      invariant v.Array? && w.Array? && |v.items| == |s.children| && |w.items| == |u.children|
      invariant forall k | 0 <= k < i :: C.CompareDeep(v.items[k], w.items[k], cs)
      decreases |s.children| - i
    {
      KindOf(s, false);
      KindOf(u, false);
      same := CompareAtBoth(x, y, cs, s, i, u, i);
      if !same { return; }
      NextChild(s, i, false);
      NextChild(u, i, false);
      x, y := x.next, y.next;
      i := i + 1;
    }
    same := x == y;
    RootsDiffer(s, u);
  }

  lemma RootsDiffer(s: Shape, u: Shape)
    requires Nodes(s) !! Nodes(u)
    ensures forall i, j {:trigger Roots(s.children)[i], Roots(u.children)[j]} | 0 <= i < |s.children| && 0 <= j < |u.children| :: Roots(s.children)[i] != Roots(u.children)[j]
  {
    RootsAndBelow(s.children);
    RootsAndBelow(u.children);
  }

  lemma DeepArrays(v: Json, w: Json, cs: bool)
    requires v.Array? && w.Array?
    ensures C.CompareDeep(v, w, cs) <==> |v.items| == |w.items| && forall i | 0 <= i < |v.items| :: C.CompareDeep(v.items[i], w.items[i], cs)
  {
  }

  /** Every member of the first object is looked up in the second. */
  method Covered(a: Item, b: Item, cs: bool, ghost s: Shape, ghost u: Shape) returns (same: bool)
    requires Tree(s, false) && Tree(u, false) && s.item == a && u.item == b && Nodes(s) !! Nodes(u) && a.kind == ObjectItem && b.kind == ObjectItem
    ensures Tree(s, false) && Tree(u, false) && JsonOf(s) == old(JsonOf(s)) && JsonOf(u) == old(JsonOf(u))
    ensures same <==> C.Covers(old(Members(s.children)), old(Members(u.children)), cs)
    decreases |Nodes(s)| + |Nodes(u)|, 1
  {
    hide Tree, Forest, NodesAll, Nodes, Members, Values, JsonOf, BelowAll, Roots, C.CompareDeep, FindKey;
    KindOf(s, false);
    KindOf(u, false);
    ghost var ms, ns, i: nat := Members(s.children), Members(u.children), 0;
    CoversFound(ms, ns, cs);
    FirstChild(s, false);
    var x := a.child;
    while x != null
      invariant i <= |s.children| && x == At(Roots(s.children), i)
      invariant Tree(s, false) && Tree(u, false) && JsonOf(s) == Object(ms) && JsonOf(u) == Object(ns)
      invariant |ms| == |s.children| && |ns| == |u.children|
      invariant forall k | 0 <= k < i :: Found(ms, k, ns, cs)
      decreases |s.children| - i
    {
      same := LookUpOne(x, b, cs, s, i, u, ms, ns);
      if !same { return; }
      NextChild(s, i, false);
      x := x.next;
      i := i + 1;
    }
    same := true;
  }

  predicate Found(ms: seq<Member<Json>>, k: nat, ns: seq<Member<Json>>, cs: bool)
    requires k < |ms|
  {
    var j := FindKey(ns, ms[k].key, cs);
    j < |ns| && C.CompareDeep(ms[k].value, ns[j].value, cs)
  }

  lemma CoversFound(ms: seq<Member<Json>>, ns: seq<Member<Json>>, cs: bool)
    ensures C.Covers(ms, ns, cs) <==> forall k | 0 <= k < |ms| :: Found(ms, k, ns, cs)
  {
    hide C.CompareDeep, FindKey;
    if C.Covers(ms, ns, cs) {
      forall k | 0 <= k < |ms|
        ensures Found(ms, k, ns, cs)
      {
        assert ms[k].key == ms[k].key;
      }
    }
    if forall k | 0 <= k < |ms| :: Found(ms, k, ns, cs) {
      forall k | 0 <= k < |ms|
        ensures var j := FindKey(ns, ms[k].key, cs); j < |ns| && C.CompareDeep(ms[k].value, ns[j].value, cs)
      {
        assert Found(ms, k, ns, cs);
      }
    }
  }

  /** One member is looked up and compared. */
  method LookUpOne(x: Item, b: Item, cs: bool, ghost s: Shape, ghost i: nat, ghost u: Shape, ghost ms: seq<Member<Json>>, ghost ns: seq<Member<Json>>) returns (same: bool)
    requires Tree(s, false) && Tree(u, false) && u.item == b && Nodes(s) !! Nodes(u) && s.item.kind == ObjectItem && b.kind == ObjectItem
    requires JsonOf(s) == Object(ms) && JsonOf(u) == Object(ns) && i < |s.children| && x == Roots(s.children)[i]
    ensures Tree(s, false) && Tree(u, false) && JsonOf(s) == old(JsonOf(s)) && JsonOf(u) == old(JsonOf(u))
    ensures i < |ms| && (same <==> Found(ms, i, ns, cs))
    decreases |Nodes(s)| + |Nodes(u)|, 0, 1
  {
    hide Tree, Forest, NodesAll, Nodes, Members, Values, JsonOf, BelowAll, Roots, C.CompareDeep, FindKey;
    KindOf(s, false);
    KindOf(u, false);
    TreeExists(s);
    TreeExists(u);
    EntryValues(s, i);
    var y := GetObjectItem(b, x.key, cs, u, false);
    KindOf(s, false);
    KindOf(u, false);
    ghost var j := FindKey(ns, ms[i].key, cs);
    if y == null { return false; }
    EntryValues(s, i);
    EntryValues(u, j);
    same := CompareAtBoth(x, y, cs, s, i, u, j);
  }
}

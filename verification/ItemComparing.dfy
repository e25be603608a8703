/** `compare_json` on the items themselves: the members of the objects it visits are sorted in place. */
module ItemComparing {
  import opened Bytes
  import opened Json
  import opened Sorting
  import opened ChildLists
  import opened ItemTrees
  import opened ItemPaths
  import opened ItemWalks
  import opened ItemEdits
  import opened ItemSorting
  import C = Comparing

  // ---- one child changes ----

  /** The trees beside the child at an index, with the values that the children stand for. */
  ghost predicate Beside(s: Shape, i: nat, vs: seq<Json>, ms: seq<Member<Json>>)
    requires i < |s.children|
    reads s.item`child, s.item`kind, Roots(s.children)`next, Roots(s.children)`prev, NodesAll(Without(s.children, i))
  {
    var rest := Without(s.children, i);
    RootsAndBelow(rest);
    && Container(s.item.kind) && s.item !in NodesAll(s.children) && Nodes(s.children[i]) !! NodesAll(rest)
    && Linked(s.item, Roots(s.children), false) && Forest(rest, false)
    && i < |vs| && i < |ms| && Values(rest) == Without(vs, i) && Members(rest) == Without(ms, i)
  }

  lemma Aside(s: Shape, i: nat)
    requires Tree(s, false) && i < |s.children|
    ensures Beside(s, i, Values(s.children), Members(s.children)) && Tree(s.children[i], false)
    ensures Nodes(s) == {s.item} + Nodes(s.children[i]) + NodesAll(Without(s.children, i))
    ensures |Nodes(s.children[i])| < |Nodes(s)|
    ensures s.item !in Nodes(s.children[i]) && s.children[i].item == Roots(s.children)[i]
    ensures Values(s.children)[i] == JsonOf(s.children[i]) && Members(s.children)[i] == Member(s.children[i].item.key, JsonOf(s.children[i]))
  {
    hide Tree, Forest, Linked, NodesAll, Nodes, JsonOf, Values, Members;
    Rooted(s, false);
    TakeOut(s.children, i, false);
    TakeOutNodes(s.children, i);
    TakeOutValues(s.children, i);
    TakeOutMembers(s.children, i);
    Smaller(Nodes(s.children[i]), s.item, NodesAll(Without(s.children, i)), Nodes(s));
  }

  lemma Smaller<T>(a: set<T>, x: T, b: set<T>, whole: set<T>)
    requires whole == {x} + a + b && x !in a
    ensures |a| < |whole|
  {
    assert |a + {x}| == |a| + 1;
    var rest := whole - (a + {x});
    assert whole == (a + {x}) + rest && (a + {x}) !! rest;
  }

  /** The roots beside a child are none of the items below it. */
  lemma RootsBeside(s: Shape, i: nat)
    requires Tree(s, false) && i < |s.children|
    ensures forall j {:trigger Roots(s.children)[j]} | 0 <= j < |s.children| :: Roots(s.children)[j] !in NodesAll(s.children[i].children)
  {
    hide Forest, Linked, NodesAll, BelowAll;
    Rooted(s, false);
    TakeOut(s.children, i, false);
    TakeOutNodes(s.children, i);
    var rest := Without(s.children, i);
    RootsAndBelow(rest);
    NodesOf(s.children[i]);
    NewItem(s.children[i], false);
    forall j | 0 <= j < |s.children|
      ensures Roots(s.children)[j] !in NodesAll(s.children[i].children)
    {
      if j != i {
        assert Roots(s.children)[j] == Roots(rest)[if j < i then j else j - 1];
      }
    }
  }

  /** A tree with the same items takes the place of the child. */
  lemma Restored(s: Shape, i: nat, vs: seq<Json>, ms: seq<Member<Json>>, c: Shape)
    requires i < |s.children| && Beside(s, i, vs, ms)
    requires Tree(c, false) && c.item == s.children[i].item && Nodes(c) == Nodes(s.children[i])
    ensures var cs := s.children[i := c];
            && Tree(Shape(s.item, cs), false) && NodesAll(cs) == NodesAll(s.children) && Roots(cs) == Roots(s.children)
            && Values(cs) == vs[i := JsonOf(c)] && Members(cs) == ms[i := Member(c.item.key, JsonOf(c))]
  {
    hide Tree, Forest, Linked, NodesAll, Nodes, JsonOf, Values, Members;
    var rest, cs := Without(s.children, i), s.children[i := c];
    Exchanged(s.children, i, c);
    Exchanged(Roots(s.children), i, c.item);
    Exchanged(vs, i, JsonOf(c));
    Exchanged(ms, i, Member(c.item.key, JsonOf(c)));
    TakeOutNodes(s.children, i);
    PutIn(rest, i, c, false);
    PutInNodes(rest, i, c);
    PutInValues(rest, i, c);
    assert Roots(s.children)[i := c.item] == Roots(s.children);
    MakeTree(Shape(s.item, cs), false);
  }

  // ---- what the loops have done ----

  function Then<T>(p: seq<T>, q: seq<T>, r: C.Compared<seq<T>>): C.Compared<seq<T>> {
    C.Compared(r.same, p + r.a, q + r.b)
  }

  lemma ThenNext<T>(p: seq<T>, q: seq<T>, x: T, y: T, r: C.Compared<seq<T>>)
    ensures Then(p, q, C.Compared(r.same, [x] + r.a, [y] + r.b)) == Then(p + [x], q + [y], r)
  {
    assert p + ([x] + r.a) == (p + [x]) + r.a && q + ([y] + r.b) == (q + [y]) + r.b;
  }

  /** One turn of the array loop. */
  lemma ItemsTurn(vs: seq<Json>, ws: seq<Json>, i: nat, cs: bool)
    requires i < |vs| && i < |ws|
    ensures var r := C.CompareJson(vs[i], ws[i], cs);
            var vs', ws' := vs[i := r.a], ws[i := r.b];
            Then(vs[..i], ws[..i], C.CompareItems(vs[i..], ws[i..], cs)) ==
            if r.same then Then(vs'[..i + 1], ws'[..i + 1], C.CompareItems(vs'[i + 1..], ws'[i + 1..], cs))
            else C.Compared(false, vs', ws')
  {
    hide C.CompareJson;
    var r := C.CompareJson(vs[i], ws[i], cs);
    var vs', ws' := vs[i := r.a], ws[i := r.b];
    assert vs[i..][1..] == vs'[i + 1..] && ws[i..][1..] == ws'[i + 1..];
    Advance(vs, i, r.a);
    Advance(ws, i, r.b);
    ThenNext(vs[..i], ws[..i], r.a, r.b, C.CompareItems(vs'[i + 1..], ws'[i + 1..], cs));
  }

  lemma Advance<T>(s: seq<T>, i: nat, x: T)
    requires i < |s|
    ensures s[i := x][..i + 1] == s[..i] + [x]
    ensures s[i := x] == s[..i] + ([x] + s[i..][1..])
  {
  }

  lemma ItemsDone(vs: seq<Json>, ws: seq<Json>, i: nat, cs: bool)
    requires i <= |vs| && i <= |ws| && (i == |vs| || i == |ws|)
    ensures Then(vs[..i], ws[..i], C.CompareItems(vs[i..], ws[i..], cs)) == C.Compared(|vs| == |ws|, vs, ws)
  {
    assert vs[..i] + vs[i..] == vs && ws[..i] + ws[i..] == ws;
  }

  // ---- the comparison ----

  /** The comparison of two children; the trees around them stay as they are. */
  method CompareAt(x: Item, y: Item, cs: bool, ghost s: Shape, ghost i: nat, ghost u: Shape, ghost j: nat) returns (same: bool, ghost s': Shape, ghost u': Shape)
    requires Tree(s, false) && Tree(u, false) && Nodes(s) !! Nodes(u)
    requires i < |s.children| && j < |u.children| && x == Roots(s.children)[i] && y == Roots(u.children)[j]
    modifies NodesAll(s.children)`child, NodesAll(s.children)`next, NodesAll(s.children)`prev
    modifies NodesAll(u.children)`child, NodesAll(u.children)`next, NodesAll(u.children)`prev
    ensures Kept(s, s') && Kept(u, u')
    ensures Roots(s'.children) == Roots(s.children) && Roots(u'.children) == Roots(u.children)
    ensures var r := C.CompareJson(old(Values(s.children)[i]), old(Values(u.children)[j]), cs);
            && same == r.same
            && Values(s'.children) == old(Values(s.children))[i := r.a]
            && Values(u'.children) == old(Values(u.children))[j := r.b]
            && Members(s'.children) == old(Members(s.children))[i := Member(x.key, r.a)]
            && Members(u'.children) == old(Members(u.children))[j := Member(y.key, r.b)]
    decreases |Nodes(s)|, 0
  {
    hide Tree, Forest, Linked, NodesAll, Nodes, JsonOf, Values, Members, BelowAll, Roots, Without, Inserted, C.CompareJson, Beside;
    ghost var c, d := s.children[i], u.children[j];
    ghost var vs, ms, ws, ns := Values(s.children), Members(s.children), Values(u.children), Members(u.children);
    ReadyAt(s, i);
    ReadyAt(u, j);
    ApartAt(s, i, d, u);
    ApartAt(u, j, c, s);
    ghost var c', d';
    same, c', d' := CompareJson(x, y, cs, c, d);
    s', u' := Shape(s.item, s.children[i := c']), Shape(u.item, u.children[j := d']);
    NodesOf(c');
    NodesOf(d');
    Restored(s, i, vs, ms, c');
    Restored(u, j, ws, ns, d');
  }

  /** All that is known of the child at an index and of what is beside it. */
  lemma ReadyAt(s: Shape, i: nat)
    requires Tree(s, false) && i < |s.children|
    ensures var c, rest := s.children[i], Without(s.children, i);
            && Nodes(c) <= NodesAll(s.children) && NodesAll(c.children) <= Nodes(c)
            && Beside(s, i, Values(s.children), Members(s.children)) && Tree(c, false) && c.item == Roots(s.children)[i] && Nodes(c) == {c.item} + NodesAll(c.children)
            && Nodes(s) == {s.item} + Nodes(c) + NodesAll(rest) && |Nodes(c)| < |Nodes(s)| && Nodes(c) !! NodesAll(rest) && s.item !in Nodes(c)
            && Values(s.children)[i] == JsonOf(c) && Members(s.children)[i] == Member(c.item.key, JsonOf(c))
    ensures forall j {:trigger Roots(s.children)[j]} | 0 <= j < |s.children| ::
              Roots(s.children)[j] !in NodesAll(s.children[i].children) && Roots(s.children)[j] in Nodes(s)
    ensures forall n {:trigger n in Nodes(s)} | n in Nodes(s) :: allocated(n)
    ensures forall n {:trigger n in NodesAll(Without(s.children, i))} | n in NodesAll(Without(s.children, i)) :: allocated(n)
  {
    hide Tree, Forest, Linked, NodesAll, Nodes, JsonOf, Values, Members, BelowAll, Roots;
    Aside(s, i);
    RootsBeside(s, i);
    TreeExists(s);
    TakeOutNodes(s.children, i);
    NodesOf(s.children[i]);
    NodesOf(s);
    RootsAndBelow(s.children);
  }

  /** Nor is any of it an item of another tree. */
  lemma ApartAt(s: Shape, i: nat, d: Shape, u: Shape)
    requires i < |s.children| && Nodes(s) !! Nodes(u) && Nodes(d) <= Nodes(u)
    ensures var c, rest := s.children[i], Without(s.children, i);
            && s.item !in Nodes(d) && Nodes(c) !! Nodes(d) && NodesAll(rest) !! Nodes(d) && NodesAll(s.children) !! Nodes(d)
            && NodesAll(d.children) <= Nodes(d)
    ensures forall j {:trigger Roots(s.children)[j]} | 0 <= j < |s.children| :: Roots(s.children)[j] !in Nodes(d)
  {
    hide NodesAll, BelowAll, Roots;
    TakeOutNodes(s.children, i);
    RootsAndBelow(s.children);
  }

  /** The same items, with the same root in the same place. */
  ghost predicate Kept(s: Shape, s': Shape)
    reads s'.item`child, s'.item`kind, NodesAll(s'.children)
  {
    Tree(s', false) && s'.item == s.item && NodesAll(s'.children) == NodesAll(s.children)
  }

  /** `compare_json` */
  method CompareJson(a: Item, b: Item, cs: bool, ghost s: Shape, ghost u: Shape) returns (same: bool, ghost s': Shape, ghost u': Shape)
    requires Tree(s, false) && s.item == a && Tree(u, false) && u.item == b && Nodes(s) !! Nodes(u)
    modifies Nodes(s)`child, NodesAll(s.children)`next, NodesAll(s.children)`prev
    modifies Nodes(u)`child, NodesAll(u.children)`next, NodesAll(u.children)`prev
    ensures Kept(s, s') && Kept(u, u')
    ensures C.CompareJson(old(JsonOf(s)), old(JsonOf(u)), cs) == C.Compared(same, JsonOf(s'), JsonOf(u'))
    decreases |Nodes(s)|, 3
  {
    hide Tree, Forest, Linked, NodesAll, Nodes, JsonOf, Values, Members, BelowAll, Roots, Without, C.CompareItems, C.CompareMembers, Beside;
    KindOf(s, false);
    KindOf(u, false);
    ScalarOf(s);
    ScalarOf(u);
    same, s', u' := a.kind == b.kind, s, u;
    if !same { return; }
    match a.kind
    case NumberItem => same := a.number == b.number;
    case StringItem => same := Compare(a.text, b.text) == 0;
    case ArrayItem =>
      same, s', u' := CompareElements(a, b, cs, s, u);
      KindOf(s', false);
      KindOf(u', false);
    case ObjectItem =>
      same, s', u' := CompareObjects(a, b, cs, s, u);
      KindOf(s', false);
      KindOf(u', false);
    case _ =>
  }

  lemma ScalarOf(s: Shape)
    ensures match s.item.kind
            case NullItem => JsonOf(s) == Null
            case FalseItem => JsonOf(s) == False
            case TrueItem => JsonOf(s) == True
            case NumberItem => JsonOf(s) == Number(s.item.number)
            case StringItem => JsonOf(s) == String(s.item.text)
            case _ => true
  {
    hide Values, Members;
  }

  /** The loop over two arrays. */
  method CompareElements(a: Item, b: Item, cs: bool, ghost s: Shape, ghost u: Shape) returns (same: bool, ghost s': Shape, ghost u': Shape)
    requires Tree(s, false) && s.item == a && Tree(u, false) && u.item == b && Nodes(s) !! Nodes(u)
    modifies Nodes(s)`child, NodesAll(s.children)`next, NodesAll(s.children)`prev
    modifies Nodes(u)`child, NodesAll(u.children)`next, NodesAll(u.children)`prev
    ensures Kept(s, s') && Kept(u, u')
    ensures C.CompareItems(old(Values(s.children)), old(Values(u.children)), cs) == C.Compared(same, Values(s'.children), Values(u'.children))
    decreases |Nodes(s)|, 1
  {
    hide Tree, Forest, Linked, NodesAll, Nodes, JsonOf, Values, Members, BelowAll, Roots, Without, C.CompareJson, C.CompareItems, Then, Beside;
    s', u' := s, u;
    ghost var all, i: nat := C.CompareItems(Values(s.children), Values(u.children), cs), 0;
    FirstChild(s, false);
    FirstChild(u, false);
    NodesOf(s);
    NodesOf(u);
    Begin(Values(s.children), Values(u.children), cs);
    var x, y := a.child, b.child;
    while x != null && y != null
      invariant i <= |s'.children| && i <= |u'.children| && x == At(Roots(s'.children), i) && y == At(Roots(u'.children), i)
      invariant Kept(s, s') && Kept(u, u')
      invariant var vs, ws := Values(s'.children), Values(u'.children); all == Then(vs[..i], ws[..i], C.CompareItems(vs[i..], ws[i..], cs))
      decreases |s'.children| - i
    {
      ItemsTurn(Values(s'.children), Values(u'.children), i, cs);
      NodesOf(s');
      NodesOf(u');
      same, s', u' := CompareAt(x, y, cs, s', i, u', i);
      if !same { return; }
      NextChild(s', i, false);
      NextChild(u', i, false);
      x, y := x.next, y.next;
      i := i + 1;
    }
    same := x == null && y == null;
    ItemsDone(Values(s'.children), Values(u'.children), i, cs);
  }

  lemma Begin(vs: seq<Json>, ws: seq<Json>, cs: bool)
    ensures C.CompareItems(vs, ws, cs) == Then(vs[..0], ws[..0], C.CompareItems(vs[0..], ws[0..], cs))
  {
    hide C.CompareItems;
    var r := C.CompareItems(vs, ws, cs);
    assert vs[0..] == vs && ws[0..] == ws && vs[..0] + r.a == r.a && ws[..0] + r.b == r.b;
  }

  /** Both objects are sorted, and then walked along together. */
  method CompareObjects(a: Item, b: Item, cs: bool, ghost s: Shape, ghost u: Shape) returns (same: bool, ghost s': Shape, ghost u': Shape)
    requires Tree(s, false) && s.item == a && Tree(u, false) && u.item == b && Nodes(s) !! Nodes(u)
    requires a.kind == ObjectItem && b.kind == ObjectItem
    modifies Nodes(s)`child, NodesAll(s.children)`next, NodesAll(s.children)`prev
    modifies Nodes(u)`child, NodesAll(u.children)`next, NodesAll(u.children)`prev
    ensures Kept(s, s') && Kept(u, u')
    ensures C.CompareJson(old(JsonOf(s)), old(JsonOf(u)), cs) == C.Compared(same, Object(Members(s'.children)), Object(Members(u'.children)))
    decreases |Nodes(s)|, 2
  {
    hide Tree, Forest, Linked, NodesAll, Nodes, JsonOf, Values, Members, BelowAll, Roots, Without, C.CompareJson, C.CompareMembers, Sort;
    KindOf(s, false);
    KindOf(u, false);
    NodesOf(s);
    NodesOf(u);
    TreeExists(s);
    TreeExists(u);
    RootsAndBelow(s.children);
    RootsAndBelow(u.children);
    ghost var top := JsonOf(s);
    SortedCompare(Members(s.children), Members(u.children), cs);
    s' := SortObject(a, cs, s);
    NodesOf(s');
    KindOf(s', false);
    KindOf(u, false);
    TreeExists(s');
    u' := SortObject(b, cs, u);
    NodesOf(u');
    KindOf(s', false);
    same, s', u' := CompareEntries(a, b, cs, top, s', u');
  }

  lemma SortedCompare(ms: seq<Member<Json>>, ns: seq<Member<Json>>, cs: bool)
    ensures forall m | m in Sort(ms, cs) :: m.value < Object(ms)
    ensures var r := C.CompareMembers(Object(ms), Sort(ms, cs), Sort(ns, cs), cs);
            C.CompareJson(Object(ms), Object(ns), cs) == C.Compared(r.same, Object(r.a), Object(r.b))
  {
    hide Sort, C.CompareMembers;
    SortPermutes(ms, cs);
    forall m | m in Sort(ms, cs)
      ensures m.value < Object(ms)
    {
      assert m in multiset(ms);
    }
  }

  /** The loop over two sorted objects. */
  method CompareEntries(a: Item, b: Item, cs: bool, ghost top: Json, ghost s: Shape, ghost u: Shape) returns (same: bool, ghost s': Shape, ghost u': Shape)
    requires Tree(s, false) && s.item == a && Tree(u, false) && u.item == b && Nodes(s) !! Nodes(u)
    requires forall m | m in Members(s.children) :: m.value < top
    modifies Nodes(s)`child, NodesAll(s.children)`next, NodesAll(s.children)`prev
    modifies Nodes(u)`child, NodesAll(u.children)`next, NodesAll(u.children)`prev
    ensures Kept(s, s') && Kept(u, u')
    ensures C.CompareMembers(top, old(Members(s.children)), old(Members(u.children)), cs) == C.Compared(same, Members(s'.children), Members(u'.children))
    decreases |Nodes(s)|, 1
  {
    hide Tree, Forest, Linked, NodesAll, Nodes, JsonOf, Values, Members, BelowAll, Roots, Without, C.CompareJson, C.CompareMembers, CompareStrings, Walked, Beside;
    s', u' := s, u;
    ghost var all, i: nat := C.CompareMembers(top, Members(s.children), Members(u.children), cs), 0;
    FirstChild(s, false);
    FirstChild(u, false);
    NodesOf(s);
    NodesOf(u);
    SetOut(top, Members(s.children), Members(u.children), cs);
    var x, y := a.child, b.child;
    while x != null && y != null
      invariant i <= |s'.children| && i <= |u'.children| && x == At(Roots(s'.children), i) && y == At(Roots(u'.children), i)
      invariant Kept(s, s') && Kept(u, u')
      invariant Walked(all, top, Members(s'.children), Members(u'.children), i, cs)
      decreases |s'.children| - i
    {
      NextChild(s', i, false);
      NextChild(u', i, false);
      EntriesTurn(all, top, Members(s'.children), Members(u'.children), i, cs);
      if CompareStrings(x.key, y.key, cs) != 0 { return false, s', u'; }
      NodesOf(s');
      NodesOf(u');
      EntryValues(s', i);
      EntryValues(u', i);
      same, s', u' := CompareAt(x, y, cs, s', i, u', i);
      if !same { return; }
      NextChild(s', i, false);
      NextChild(u', i, false);
      x, y := x.next, y.next;
      i := i + 1;
    }
    same := x == null && y == null;
    EntriesDone(all, top, Members(s'.children), Members(u'.children), i, cs);
  }

  lemma EntryValues(s: Shape, i: nat)
    requires i < |s.children|
    ensures Members(s.children)[i] == Member(Roots(s.children)[i].key, Values(s.children)[i])
  {
    hide Values, Members, JsonOf;
    MembersAt(s.children);
  }

  /** The first members have been walked along, and what is left decides. */
  ghost predicate Walked(all: C.Compared<seq<Member<Json>>>, top: Json, ms: seq<Member<Json>>, ns: seq<Member<Json>>, i: nat, cs: bool) {
    && i <= |ms| && i <= |ns| && (forall m | m in ms[i..] :: m.value < top)
    && all == Then(ms[..i], ns[..i], C.CompareMembers(top, ms[i..], ns[i..], cs))
  }

  lemma SetOut(top: Json, ms: seq<Member<Json>>, ns: seq<Member<Json>>, cs: bool)
    requires forall m | m in ms :: m.value < top
    ensures Walked(C.CompareMembers(top, ms, ns, cs), top, ms, ns, 0, cs)
  {
    hide C.CompareMembers;
    var r := C.CompareMembers(top, ms, ns, cs);
    assert ms[0..] == ms && ns[0..] == ns && ms[..0] + r.a == r.a && ns[..0] + r.b == r.b;
  }

  /** One turn of the loop. */
  lemma EntriesTurn(all: C.Compared<seq<Member<Json>>>, top: Json, ms: seq<Member<Json>>, ns: seq<Member<Json>>, i: nat, cs: bool)
    requires Walked(all, top, ms, ns, i, cs) && i < |ms| && i < |ns|
    ensures var r := C.CompareJson(ms[i].value, ns[i].value, cs);
            var ms', ns' := ms[i := Member(ms[i].key, r.a)], ns[i := Member(ns[i].key, r.b)];
            if CompareStrings(ms[i].key, ns[i].key, cs) != 0 then all == C.Compared(false, ms, ns)
            else if r.same then Walked(all, top, ms', ns', i + 1, cs)
            else all == C.Compared(false, ms', ns')
  {
    hide C.CompareJson, CompareStrings;
    var r := C.CompareJson(ms[i].value, ns[i].value, cs);
    var m, n := Member(ms[i].key, r.a), Member(ns[i].key, r.b);
    var ms', ns' := ms[i := m], ns[i := n];
    assert ms[i..][1..] == ms'[i + 1..] && ns[i..][1..] == ns'[i + 1..];
    assert ms[..i] + ms[i..] == ms && ns[..i] + ns[i..] == ns;
    Advance(ms, i, m);
    Advance(ns, i, n);
    ThenNext(ms[..i], ns[..i], m, n, C.CompareMembers(top, ms[i..][1..], ns[i..][1..], cs));
  }

  lemma EntriesDone(all: C.Compared<seq<Member<Json>>>, top: Json, ms: seq<Member<Json>>, ns: seq<Member<Json>>, i: nat, cs: bool)
    requires Walked(all, top, ms, ns, i, cs) && (i == |ms| || i == |ns|)
    ensures all == C.Compared(|ms| == |ns|, ms, ns)
  {
    assert ms[..i] + ms[i..] == ms && ns[..i] + ns[i..] == ns;
  }
}

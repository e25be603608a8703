/** `generate_merge_patch` on the items themselves. */
module ItemMergeDiff {
  import opened Bytes
  import opened Json
  import opened Sorting
  import opened ChildLists
  import opened ItemTrees
  import opened ItemWalks
  import opened ItemEdits
  import opened ItemPatching
  import opened ItemComparing
  import opened ItemDiffing
  import C = Comparing
  import M = Merging

  /** The patch being built and the two trees share nothing. */
  ghost predicate Together(patch: Item, q: Shape, s: Shape, u: Shape)
    reads q.item`child, q.item`kind, NodesAll(q.children), s.item`child, s.item`kind, NodesAll(s.children), u.item`child, u.item`kind, NodesAll(u.children)
  {
    && Tree(q) && q.item == patch && patch.kind == ObjectItem && Tree(s, false) && Tree(u, false)
    && Nodes(q) !! Nodes(s) && Nodes(q) !! Nodes(u) && Nodes(s) !! Nodes(u)
  }

  /** What has been done so far and what is still to come make up the whole. */
  ghost predicate WalkPending(all: seq<Member<Json>>, bound: nat, done: seq<Member<Json>>, ms: seq<Member<Json>>, i: nat, ns: seq<Member<Json>>, j: nat, cs: bool) {
    && i <= |ms| && j <= |ns| && (forall m | m in ms[i..] :: C.Size(m.value) <= bound)
    && all == done + M.MergeWalk(bound, ms[i..], ns[j..], cs)
  }

  lemma AllWalk(bound: nat, ms: seq<Member<Json>>, ns: seq<Member<Json>>, cs: bool)
    requires forall m | m in ms :: C.Size(m.value) <= bound
    ensures WalkPending(M.MergeWalk(bound, ms, ns, cs), bound, [], ms, 0, ns, 0, cs)
  {
    assert ms[0..] == ms && ns[0..] == ns;
  }

  lemma NoWalk(all: seq<Member<Json>>, bound: nat, done: seq<Member<Json>>, ms: seq<Member<Json>>, i: nat, ns: seq<Member<Json>>, j: nat, cs: bool)
    requires WalkPending(all, bound, done, ms, i, ns, j, cs) && i == |ms| && j == |ns|
    ensures all == done
  {
  }

  /** How `strcmp` orders the next two names; an object that is at its end comes last. */
  function Order(ms: seq<Member<Json>>, i: nat, ns: seq<Member<Json>>, j: nat): int
    requires i <= |ms| && j <= |ns|
  {
    if i == |ms| then 1 else if j == |ns| then -1 else Compare(ms[i].key, ns[j].key)
  }

  /** What a name that both objects have contributes. */
  function Below(m: Member<Json>, n: Member<Json>, cs: bool): seq<Member<Json>> {
    var r := C.CompareJson(m.value, n.value, cs);
    match if r.same then None else M.GenerateMerge(r.a, r.b, false)
    case Some(p) => [Member(n.key, p)]
    case None => []
  }

  /** The members of the patch that the next turn adds. */
  function Turn(ms: seq<Member<Json>>, i: nat, ns: seq<Member<Json>>, j: nat, cs: bool): seq<Member<Json>>
    requires i <= |ms| && j <= |ns| && (i < |ms| || j < |ns|)
  {
    var diff := Order(ms, i, ns, j);
    if diff < 0 && i < |ms| then [Member(ms[i].key, Null)]
    else if diff > 0 && j < |ns| then [ns[j]]
    else if i < |ms| && j < |ns| then Below(ms[i], ns[j], cs)
    else []
  }

  lemma TurnPending(all: seq<Member<Json>>, bound: nat, done: seq<Member<Json>>, ms: seq<Member<Json>>, i: nat, ns: seq<Member<Json>>, j: nat, cs: bool)
    requires WalkPending(all, bound, done, ms, i, ns, j, cs) && (i < |ms| || j < |ns|)
    ensures var diff := Order(ms, i, ns, j);
            && (diff <= 0 ==> i < |ms|) && (diff >= 0 ==> j < |ns|)
            && WalkPending(all, bound, done + Turn(ms, i, ns, j, cs), ms, if diff <= 0 then i + 1 else i, ns, if diff >= 0 then j + 1 else j, cs)
  {
    hide C.CompareJson, M.GenerateMerge, Compare, C.Size;
    assert i < |ms| ==> ms[i..][1..] == ms[i + 1..];
    assert j < |ns| ==> ns[j..][1..] == ns[j + 1..];
    var diff := Order(ms, i, ns, j);
    var i', j' := if diff <= 0 then i + 1 else i, if diff >= 0 then j + 1 else j;
    Regroup(done, Turn(ms, i, ns, j, cs), M.MergeWalk(bound, ms[i'..], ns[j'..], cs));
  }

  lemma SameWalk(all: seq<Member<Json>>, bound: nat, done: seq<Member<Json>>, ms: seq<Member<Json>>, i: nat, ns: seq<Member<Json>>, j: nat,
                 ms': seq<Member<Json>>, ns': seq<Member<Json>>, cs: bool)
    requires WalkPending(all, bound, done, ms, i, ns, j, cs)
    requires |ms'| == |ms| && ms'[i..] == ms[i..] && |ns'| == |ns| && ns'[j..] == ns[j..]
    ensures WalkPending(all, bound, done, ms', i, ns', j, cs)
  {
  }

  // ---- two children ----

  /** The patch for two children; the trees around them stay as they are. */
  method GenerateAt(x: Item, y: Item, ghost s: Shape, ghost i: nat, ghost u: Shape, ghost j: nat)
    returns (patch: Item?, ghost q: Shape, ghost s': Shape, ghost u': Shape)
    requires Tree(s, false) && Tree(u, false) && Nodes(s) !! Nodes(u)
    requires i < |s.children| && j < |u.children| && x == Roots(s.children)[i] && y == Roots(u.children)[j]
    modifies NodesAll(s.children)`child, NodesAll(s.children)`next, NodesAll(s.children)`prev
    modifies NodesAll(u.children)`child, NodesAll(u.children)`next, NodesAll(u.children)`prev
    ensures Kept(s, s') && Kept(u, u')
    ensures Roots(s'.children) == Roots(s.children) && Roots(u'.children) == Roots(u.children)
    ensures Made(patch, q, M.GenerateMerge(old(Values(s.children)[i]), old(Values(u.children)[j]), false))
    ensures patch != null ==> fresh(Nodes(q))
    ensures Passed(old(Values(s.children)), old(Members(s.children)), i, Values(s'.children), Members(s'.children))
    ensures Passed(old(Values(u.children)), old(Members(u.children)), j, Values(u'.children), Members(u'.children))
    decreases |Nodes(s)|, 0, 0
  {
    hide Tree, Forest, Linked, NodesAll, Nodes, JsonOf, Values, Members, BelowAll, Roots, Without, Inserted, M.GenerateMerge, Beside, Passed, C.BagOf;
    ghost var c, d := s.children[i], u.children[j];
    ghost var vs, ms, ws, ns := Values(s.children), Members(s.children), Values(u.children), Members(u.children);
    ReadyAt(s, i);
    ReadyAt(u, j);
    ApartAt(s, i, d, u);
    ApartAt(u, j, c, s);
    ghost var c', d';
    patch, q, c', d' := GenerateMergePatch(x, y, false, c, d);
    s', u' := Shape(s.item, s.children[i := c']), Shape(u.item, u.children[j := d']);
    NodesOf(c');
    NodesOf(d');
    Restored(s, i, vs, ms, c');
    Restored(u, j, ws, ns, d');
    PassedAt(vs, ms, i, JsonOf(c'));
    PassedAt(ws, ns, j, JsonOf(d'));
  }

  /** An unlinked item for the value, or NULL for none. */
  ghost predicate Made(patch: Item?, q: Shape, value: Option<Json>)
    reads q.item, NodesAll(q.children)
  {
    match value
    case None => patch == null
    case Some(v) => patch != null && Tree(q) && q.item == patch && patch.next == null && JsonOf(q) == v
  }

  /** `generate_merge_patch` */
  method GenerateMergePatch(a: Item, b: Item, cs: bool, ghost s: Shape, ghost u: Shape)
    returns (patch: Item?, ghost q: Shape, ghost s': Shape, ghost u': Shape)
    requires Tree(s, false) && Tree(u, false) && s.item == a && u.item == b && Nodes(s) !! Nodes(u)
    modifies Nodes(s)`child, NodesAll(s.children)`next, NodesAll(s.children)`prev
    modifies Nodes(u)`child, NodesAll(u.children)`next, NodesAll(u.children)`prev
    ensures Kept(s, s') && Kept(u, u')
    ensures Made(patch, q, M.GenerateMerge(old(JsonOf(s)), old(JsonOf(u)), cs))
    ensures patch != null ==> fresh(Nodes(q))
    ensures C.BagOf(JsonOf(s')) == C.BagOf(old(JsonOf(s))) && C.BagOf(JsonOf(u')) == C.BagOf(old(JsonOf(u)))
    decreases |Nodes(s)|, 3
  {
    hide Tree, Forest, Linked, NodesAll, Nodes, JsonOf, Values, Members, BelowAll, Roots, M.MergeWalk, M.GenerateMerge, Sort, C.BagMembers, C.BagOf, C.SizeMembers;
    KindOf(s, false);
    KindOf(u, false);
    NodesOf(s);
    NodesOf(u);
    s', u' := s, u;
    if b.kind != ObjectItem || a.kind != ObjectItem {
      NotBoth(JsonOf(s), JsonOf(u), cs);
      TreeExists(s);
      TreeExists(u);
      patch, q := Duplicate(b, true, u, false);
      return;
    }
    ghost var ms, ns := Members(s.children), Members(u.children);
    SortedWalk(ms, ns, cs);
    patch, q, s', u' := WalkObjects(a, b, cs, s, u);
    ObjectBag(ms, Members(s'.children));
    ObjectBag(ns, Members(u'.children));
    KindOf(s', false);
    KindOf(u', false);
    KindOf(q);
    FirstChild(q);
    if patch.child == null { patch := null; }
  }

  /** The objects are sorted and walked along. */
  method WalkObjects(a: Item, b: Item, cs: bool, ghost s: Shape, ghost u: Shape)
    returns (patch: Item, ghost q: Shape, ghost s': Shape, ghost u': Shape)
    requires Tree(s, false) && Tree(u, false) && s.item == a && u.item == b && Nodes(s) !! Nodes(u)
    requires a.kind == ObjectItem && b.kind == ObjectItem
    modifies Nodes(s)`child, NodesAll(s.children)`next, NodesAll(s.children)`prev
    modifies Nodes(u)`child, NodesAll(u.children)`next, NodesAll(u.children)`prev
    ensures Kept(s, s') && Kept(u, u')
    ensures Tree(q) && q.item == patch && patch.next == null && patch.kind == ObjectItem && fresh(Nodes(q))
    ensures var ms, ns := old(Members(s.children)), old(Members(u.children));
            && (forall m | m in Sort(ms, cs) :: C.Size(m.value) <= C.SizeMembers(ms))
            && Members(q.children) == M.MergeWalk(C.SizeMembers(ms), Sort(ms, cs), Sort(ns, cs), cs)
            && C.BagMembers(Members(s'.children)) == C.BagMembers(ms) && C.BagMembers(Members(u'.children)) == C.BagMembers(ns)
    decreases |Nodes(s)|, 2
  {
    hide Tree, Forest, Linked, NodesAll, Nodes, JsonOf, Values, Members, BelowAll, Roots, M.MergeWalk, Sort, C.BagMembers, C.SizeMembers, C.Size;
    ghost var ms, ns := Members(s.children), Members(u.children);
    SortedWalk(ms, ns, cs);
    SortedWalk(ns, ms, cs);
    NodesOf(s);
    NodesOf(u);
    patch, q, s', u' := StartWalk(a, b, cs, s, u);
    NodesOf(s');
    NodesOf(u');
    NodesOf(q);
    NewItem(q);
    q, s', u' := MergeWalk(patch, a, b, cs, C.SizeMembers(ms), q, s', u');
    NodesOf(q);
    SameBags(Members(s'.children), Sort(ms, cs));
    SameBags(Members(u'.children), Sort(ns, cs));
  }

  /** Both objects sorted, and an empty patch. */
  method StartWalk(a: Item, b: Item, cs: bool, ghost s: Shape, ghost u: Shape)
    returns (patch: Item, ghost q: Shape, ghost s': Shape, ghost u': Shape)
    requires Tree(s, false) && Tree(u, false) && s.item == a && u.item == b && Nodes(s) !! Nodes(u)
    requires a.kind == ObjectItem && b.kind == ObjectItem
    modifies Nodes(s)`child, NodesAll(s.children)`next, NodesAll(s.children)`prev
    modifies Nodes(u)`child, NodesAll(u.children)`next, NodesAll(u.children)`prev
    ensures Kept(s, s') && Kept(u, u') && Together(patch, q, s', u') && patch.next == null && fresh(Nodes(q)) && Members(q.children) == []
    ensures Members(s'.children) == Sort(old(Members(s.children)), cs) && Members(u'.children) == Sort(old(Members(u.children)), cs)
  {
    hide Tree, Forest, Linked, NodesAll, Nodes, JsonOf, Values, Members, BelowAll, Roots, Sort;
    NodesOf(s);
    NodesOf(u);
    s', u' := SortBoth(a, b, cs, s, u);
    NodesOf(s');
    NodesOf(u');
    TreeExists(s');
    TreeExists(u');
    AsObject(s');
    AsObject(u');
    patch, q := CreateItem(ObjectItem, []);
    AsObject(s');
    AsObject(u');
  }

  lemma NotBoth(a: Json, b: Json, cs: bool)
    requires !a.Object? || !b.Object?
    ensures M.GenerateMerge(a, b, cs) == Some(b)
  {
  }

  lemma SortedWalk(ms: seq<Member<Json>>, ns: seq<Member<Json>>, cs: bool)
    ensures C.BagMembers(Sort(ms, cs)) == C.BagMembers(ms)
    ensures forall m | m in Sort(ms, cs) :: C.Size(m.value) <= C.SizeMembers(ms)
    ensures var walk := M.MergeWalk(C.SizeMembers(ms), Sort(ms, cs), Sort(ns, cs), cs);
            M.GenerateMerge(Object(ms), Object(ns), cs) == if walk == [] then None else Some(Object(walk))
  {
    hide Sort, M.MergeWalk, C.BagMembers;
    C.SortedBag(ms, cs);
  }

  /** The walk along two sorted objects; the patch is built from its front. */
  method MergeWalk(patch: Item, a: Item, b: Item, cs: bool, ghost bound: nat, ghost q: Shape, ghost s: Shape, ghost u: Shape)
    returns (ghost q': Shape, ghost s': Shape, ghost u': Shape)
    requires Together(patch, q, s, u) && s.item == a && u.item == b && a.kind == ObjectItem && b.kind == ObjectItem
    requires Members(q.children) == [] && forall m | m in Members(s.children) :: C.Size(m.value) <= bound
    modifies patch`child, NodesAll(q.children)`next, NodesAll(q.children)`prev
    modifies Nodes(s)`child, NodesAll(s.children)`next, NodesAll(s.children)`prev
    modifies Nodes(u)`child, NodesAll(u.children)`next, NodesAll(u.children)`prev
    ensures Grown(q, q') && Kept(s, s') && Kept(u, u')
    ensures Members(q'.children) == M.MergeWalk(bound, old(Members(s.children)), old(Members(u.children)), cs)
    ensures C.BagList(Members(s'.children)) == C.BagList(old(Members(s.children)))
    ensures C.BagList(Members(u'.children)) == C.BagList(old(Members(u.children)))
    decreases |Nodes(s)|, 1
  {
    hide Tree, Forest, Linked, NodesAll, Nodes, JsonOf, Values, Members, BelowAll, Roots, C.BagList, M.MergeWalk, WalkPending;
    q', s', u' := q, s, u;
    ghost var all, i: nat, j: nat := M.MergeWalk(bound, Members(s.children), Members(u.children), cs), 0, 0;
    AllWalk(bound, Members(s.children), Members(u.children), cs);
    FirstChild(s, false);
    FirstChild(u, false);
    NodesOf(s);
    NodesOf(u);
    var x, y := a.child, b.child;
    while x != null || y != null
      invariant i <= |s'.children| == |s.children| && j <= |u'.children| == |u.children|
      invariant x == At(Roots(s'.children), i) && y == At(Roots(u'.children), j)
      invariant Grown(q, q') && Kept(s, s') && Kept(u, u') && Together(patch, q', s', u')
      invariant WalkPending(all, bound, Members(q'.children), Members(s'.children), i, Members(u'.children), j, cs)
      invariant C.BagList(Members(s'.children)) == C.BagList(old(Members(s.children)))
      invariant C.BagList(Members(u'.children)) == C.BagList(old(Members(u.children)))
      decreases |s.children| - i + |u.children| - j
    {
      NodesOf(s');
      NodesOf(u');
      var diff;
      diff, q', s', u' := MergeTurn(patch, x, y, cs, all, bound, q', s', i, u', j);
      if diff <= 0 {
        NextChild(s', i, false);
        x := x.next;
        i := i + 1;
      }
      if diff >= 0 {
        NextChild(u', j, false);
        y := y.next;
        j := j + 1;
      }
    }
    NoWalk(all, bound, Members(q'.children), Members(s'.children), i, Members(u'.children), j, cs);
  }

  /** One turn: a member to be deleted, a new one, or one that both objects have. */
  method MergeTurn(patch: Item, x: Item?, y: Item?, cs: bool, ghost all: seq<Member<Json>>, ghost bound: nat,
                   ghost q: Shape, ghost s: Shape, ghost i: nat, ghost u: Shape, ghost j: nat)
    returns (diff: int, ghost q': Shape, ghost s': Shape, ghost u': Shape)
    requires Together(patch, q, s, u) && s.item.kind == ObjectItem && u.item.kind == ObjectItem
    requires x == At(Roots(s.children), i) && y == At(Roots(u.children), j) && (x != null || y != null)
    requires WalkPending(all, bound, Members(q.children), Members(s.children), i, Members(u.children), j, cs)
    modifies patch`child, NodesAll(q.children)`next, NodesAll(q.children)`prev
    modifies NodesAll(s.children)`child, NodesAll(s.children)`next, NodesAll(s.children)`prev
    modifies NodesAll(u.children)`child, NodesAll(u.children)`next, NodesAll(u.children)`prev
    ensures Grown(q, q') && Kept(s, s') && Kept(u, u') && Together(patch, q', s', u')
    ensures Roots(s'.children) == Roots(s.children) && Roots(u'.children) == Roots(u.children)
    ensures (diff <= 0 ==> x != null) && (diff >= 0 ==> y != null)
    ensures WalkPending(all, bound, Members(q'.children),
                        Members(s'.children), if diff <= 0 then i + 1 else i, Members(u'.children), if diff >= 0 then j + 1 else j, cs)
    ensures C.BagList(Members(s'.children)) == C.BagList(old(Members(s.children)))
    ensures C.BagList(Members(u'.children)) == C.BagList(old(Members(u.children)))
    decreases |Nodes(s)|, 0, 3
  {
    hide Tree, Forest, Linked, NodesAll, Nodes, JsonOf, Values, Members, BelowAll, Roots, C.BagList, WalkPending, Compare, Below;
    ghost var ms, ns, done := Members(s.children), Members(u.children), Members(q.children);
    TurnPending(all, bound, done, ms, i, ns, j, cs);
    NamesAt(s, i);
    NamesAt(u, j);
    q', s', u' := q, s, u;
    if x == null {
      diff := 1;
    } else if y == null {
      diff := -1;
    } else {
      diff := Compare(x.key, y.key);
    }
    if diff < 0 {
      q' := MergeGone(patch, x, q, s, u);
    } else if diff > 0 {
      q' := MergeNew(patch, y, q, s, u, j);
    } else {
      q', s', u' := MergeBoth(patch, x, y, cs, q, s, i, u, j);
      SameWalk(all, bound, Members(q'.children), ms, i + 1, ns, j + 1, Members(s'.children), Members(u'.children), cs);
    }
  }

  lemma AllHere(patch: Item, q: Shape, s: Shape, u: Shape)
    requires Together(patch, q, s, u)
    ensures forall n {:trigger n in Nodes(q)} | n in Nodes(q) :: allocated(n)
    ensures forall n {:trigger n in Nodes(s)} | n in Nodes(s) :: allocated(n)
    ensures forall n {:trigger n in Nodes(u)} | n in Nodes(u) :: allocated(n)
    ensures Nodes(q) == {q.item} + NodesAll(q.children) && Nodes(s) == {s.item} + NodesAll(s.children) && Nodes(u) == {u.item} + NodesAll(u.children)
  {
    TreeExists(q);
    TreeExists(s);
    TreeExists(u);
  }

  lemma Objects(patch: Item, q: Shape, s: Shape, u: Shape)
    requires Together(patch, q, s, u) && s.item.kind == ObjectItem && u.item.kind == ObjectItem
    ensures JsonOf(q) == Object(Members(q.children)) && JsonOf(s) == Object(Members(s.children)) && JsonOf(u) == Object(Members(u.children))
  {
    hide Tree, JsonOf, Members;
    KindOf(q);
    AsObject(s);
    AsObject(u);
  }

  /** A member is linked at the end of the patch; the two trees are left alone. */
  method LinkPart(patch: Item, name: Str, item: Item, ghost q: Shape, ghost s: Shape, ghost u: Shape, ghost t: Shape) returns (ghost q': Shape)
    requires Together(patch, q, s, u) && s.item.kind == ObjectItem && u.item.kind == ObjectItem
    requires Tree(t) && t.item == item && item.next == null && Nodes(t) !! Nodes(q) && Nodes(t) !! Nodes(s) && Nodes(t) !! Nodes(u)
    modifies patch`child, item`prev, item`next, item`key, NodesAll(q.children)`next, NodesAll(q.children)`prev
    ensures Together(patch, q', s, u) && NodesAll(q'.children) <= NodesAll(q.children) + Nodes(t)
    ensures Members(s.children) == old(Members(s.children)) && Members(u.children) == old(Members(u.children))
    ensures Members(q'.children) == old(Members(q.children)) + [Member(name, old(JsonOf(t)))]
  {
    hide Tree, Forest, Linked, NodesAll, Nodes, JsonOf, Values, Members, BelowAll, Roots;
    AllHere(patch, q, s, u);
    Objects(patch, q, s, u);
    NewItem(t);
    q' := AddMember(patch, name, item, q, t);
    Objects(patch, q', s, u);
    NodesOf(q');
    NewItem(q');
  }

  /** A name of the first object only: the patch deletes it. */
  method MergeGone(patch: Item, x: Item, ghost q: Shape, ghost s: Shape, ghost u: Shape) returns (ghost q': Shape)
    requires Together(patch, q, s, u) && s.item.kind == ObjectItem && u.item.kind == ObjectItem
    modifies patch`child, NodesAll(q.children)`next, NodesAll(q.children)`prev
    ensures Grown(q, q') && Together(patch, q', s, u)
    ensures Members(s.children) == old(Members(s.children)) && Members(u.children) == old(Members(u.children))
    ensures Members(q'.children) == old(Members(q.children)) + [Member(old(x.key), Null)]
  {
    hide Tree, Forest, Linked, NodesAll, Nodes, JsonOf, Values, Members, BelowAll, Roots;
    AllHere(patch, q, s, u);
    Objects(patch, q, s, u);
    var mark;
    ghost var t;
    mark, t := CreateItem(NullItem, []);
    ScalarOf(t);
    Objects(patch, q, s, u);
    NewItem(t);
    q' := LinkPart(patch, x.key, mark, q, s, u, t);
  }

  /** A name of the second object only: the patch adds a copy. */
  method MergeNew(patch: Item, y: Item, ghost q: Shape, ghost s: Shape, ghost u: Shape, ghost j: nat) returns (ghost q': Shape)
    requires Together(patch, q, s, u) && s.item.kind == ObjectItem && u.item.kind == ObjectItem
    requires j < |u.children| && y == Roots(u.children)[j]
    modifies patch`child, NodesAll(q.children)`next, NodesAll(q.children)`prev
    ensures Grown(q, q') && Together(patch, q', s, u)
    ensures Members(s.children) == old(Members(s.children)) && Members(u.children) == old(Members(u.children))
    ensures Members(q'.children) == old(Members(q.children)) + [old(Members(u.children)[j])]
  {
    hide Tree, Forest, Linked, NodesAll, Nodes, JsonOf, Values, Members, BelowAll, Roots;
    NamesAt(u, j);
    var copy;
    ghost var t;
    copy, t := CopyPart(patch, y, q, s, u, j);
    NewItem(t);
    q' := LinkPart(patch, y.key, copy, q, s, u, t);
  }

  /** A copy of a member of the second object. */
  method CopyPart(patch: Item, y: Item, ghost q: Shape, ghost s: Shape, ghost u: Shape, ghost j: nat) returns (copy: Item, ghost t: Shape)
    requires Together(patch, q, s, u) && s.item.kind == ObjectItem && u.item.kind == ObjectItem
    requires j < |u.children| && y == Roots(u.children)[j]
    ensures Together(patch, q, s, u) && Tree(t) && t.item == copy && copy.next == null && fresh(Nodes(t))
    ensures Nodes(t) !! Nodes(q) && Nodes(t) !! Nodes(s) && Nodes(t) !! Nodes(u)
    ensures Members(q.children) == old(Members(q.children)) && Members(s.children) == old(Members(s.children)) && Members(u.children) == old(Members(u.children))
    ensures JsonOf(t) == old(Members(u.children)[j].value)
  {
    hide Tree, Forest, Linked, NodesAll, Nodes, JsonOf, Values, Members, BelowAll, Roots;
    AllHere(patch, q, s, u);
    Objects(patch, q, s, u);
    ghost var c := u.children[j];
    ReadyAt(u, j);
    TreeExists(c);
    copy, t := Duplicate(y, true, c, false);
    Objects(patch, q, s, u);
  }

  /** A name that both objects have: nothing if the comparison finds no difference, and else the patch for the two values. */
  method MergeBoth(patch: Item, x: Item, y: Item, cs: bool, ghost q: Shape, ghost s: Shape, ghost i: nat, ghost u: Shape, ghost j: nat)
    returns (ghost q': Shape, ghost s': Shape, ghost u': Shape)
    requires Together(patch, q, s, u) && s.item.kind == ObjectItem && u.item.kind == ObjectItem
    requires i < |s.children| && j < |u.children| && x == Roots(s.children)[i] && y == Roots(u.children)[j]
    modifies patch`child, NodesAll(q.children)`next, NodesAll(q.children)`prev
    modifies NodesAll(s.children)`child, NodesAll(s.children)`next, NodesAll(s.children)`prev
    modifies NodesAll(u.children)`child, NodesAll(u.children)`next, NodesAll(u.children)`prev
    ensures Grown(q, q') && Kept(s, s') && Kept(u, u') && Together(patch, q', s', u')
    ensures Roots(s'.children) == Roots(s.children) && Roots(u'.children) == Roots(u.children)
    ensures Members(q'.children) == old(Members(q.children)) + Below(old(Members(s.children)[i]), old(Members(u.children)[j]), cs)
    ensures PassedBy(old(Members(s.children)), i, Members(s'.children))
    ensures PassedBy(old(Members(u.children)), j, Members(u'.children))
    decreases |Nodes(s)|, 0, 2
  {
    hide Tree, Forest, Linked, NodesAll, Nodes, JsonOf, Values, Members, BelowAll, Roots, C.BagList, C.CompareJson, M.GenerateMerge, PassedBy;
    q' := q;
    NamesAt(u, j);
    NodesOf(s);
    NodesOf(u);
    ghost var ms, ns := Members(s.children), Members(u.children);
    var same;
    same, s', u' := CompareStep(patch, x, y, cs, q, s, i, u, j);
    if same { return; }
    var sub;
    ghost var t;
    PassedOn(ms, i, Members(s'.children));
    PassedOn(ns, j, Members(u'.children));
    NodesOf(s');
    NodesOf(u');
    sub, t, s', u' := GenerateStep(patch, x, y, q, s', i, u', j);
    if sub != null {
      NewItem(t);
      q' := LinkPart(patch, y.key, sub, q, s', u', t);
    }
  }

  lemma PassedOn(ms: seq<Member<Json>>, i: nat, ms': seq<Member<Json>>)
    requires PassedBy(ms, i, ms')
    ensures forall ms'' {:trigger PassedBy(ms', i, ms'')} :: PassedBy(ms', i, ms'') ==> PassedBy(ms, i, ms'')
  {
  }

  /** Visiting a child keeps the bag of the members when it keeps the bag of the child. */
  lemma ChildPassed(ms: seq<Member<Json>>, i: nat, x: Json)
    requires i < |ms| && C.BagOf(x) == C.BagOf(ms[i].value)
    ensures PassedBy(ms, i, ms[i := Member(ms[i].key, x)])
  {
    hide C.BagOf, C.BagList;
  }

  /** The comparison of the two values. */
  method CompareStep(patch: Item, x: Item, y: Item, cs: bool, ghost q: Shape, ghost s: Shape, ghost i: nat, ghost u: Shape, ghost j: nat)
    returns (same: bool, ghost s': Shape, ghost u': Shape)
    requires Together(patch, q, s, u) && s.item.kind == ObjectItem && u.item.kind == ObjectItem
    requires i < |s.children| && j < |u.children| && x == Roots(s.children)[i] && y == Roots(u.children)[j]
    modifies NodesAll(s.children)`child, NodesAll(s.children)`next, NodesAll(s.children)`prev
    modifies NodesAll(u.children)`child, NodesAll(u.children)`next, NodesAll(u.children)`prev
    ensures Kept(s, s') && Kept(u, u') && Together(patch, q, s', u')
    ensures Roots(s'.children) == Roots(s.children) && Roots(u'.children) == Roots(u.children)
    ensures Members(q.children) == old(Members(q.children))
    ensures var r := C.CompareJson(old(Members(s.children)[i].value), old(Members(u.children)[j].value), cs);
            same == r.same && Members(s'.children)[i].value == r.a && Members(u'.children)[j].value == r.b
    ensures PassedBy(old(Members(s.children)), i, Members(s'.children))
    ensures PassedBy(old(Members(u.children)), j, Members(u'.children))
    decreases |Nodes(s)|, 0, 0
  {
    hide Tree, Forest, Linked, NodesAll, Nodes, JsonOf, Values, Members, BelowAll, Roots, C.CompareJson, PassedBy;
    AllHere(patch, q, s, u);
    Objects(patch, q, s, u);
    EntryValues(s, i);
    EntryValues(u, j);
    ghost var ms, ns := Members(s.children), Members(u.children);
    ghost var r := C.CompareJson(ms[i].value, ns[j].value, cs);
    C.CompareOnlyReorders(ms[i].value, ns[j].value, cs);
    ChildPassed(ms, i, r.a);
    ChildPassed(ns, j, r.b);
    same, s', u' := CompareAt(x, y, cs, s, i, u, j);
    NodesOf(s');
    NodesOf(u');
    Objects(patch, q, s', u');
  }

  /** The patch for the two values. */
  method GenerateStep(patch: Item, x: Item, y: Item, ghost q: Shape, ghost s: Shape, ghost i: nat, ghost u: Shape, ghost j: nat)
    returns (sub: Item?, ghost t: Shape, ghost s': Shape, ghost u': Shape)
    requires Together(patch, q, s, u) && s.item.kind == ObjectItem && u.item.kind == ObjectItem
    requires i < |s.children| && j < |u.children| && x == Roots(s.children)[i] && y == Roots(u.children)[j]
    modifies NodesAll(s.children)`child, NodesAll(s.children)`next, NodesAll(s.children)`prev
    modifies NodesAll(u.children)`child, NodesAll(u.children)`next, NodesAll(u.children)`prev
    ensures Kept(s, s') && Kept(u, u') && Together(patch, q, s', u')
    ensures Roots(s'.children) == Roots(s.children) && Roots(u'.children) == Roots(u.children)
    ensures Members(q.children) == old(Members(q.children))
    ensures Made(sub, t, M.GenerateMerge(old(Members(s.children)[i].value), old(Members(u.children)[j].value), false))
    ensures sub != null ==> fresh(Nodes(t)) && Nodes(t) !! Nodes(q) && Nodes(t) !! Nodes(s') && Nodes(t) !! Nodes(u')
    ensures PassedBy(old(Members(s.children)), i, Members(s'.children))
    ensures PassedBy(old(Members(u.children)), j, Members(u'.children))
    decreases |Nodes(s)|, 0, 1
  {
    hide Tree, Forest, Linked, NodesAll, Nodes, JsonOf, Values, Members, BelowAll, Roots, M.GenerateMerge, C.BagList, C.BagItems;
    AllHere(patch, q, s, u);
    Objects(patch, q, s, u);
    EntryValues(s, i);
    EntryValues(u, j);
    sub, t, s', u' := GenerateAt(x, y, s, i, u, j);
    NodesOf(s');
    NodesOf(u');
    Objects(patch, q, s', u');
  }
}

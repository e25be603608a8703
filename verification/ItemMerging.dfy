/** `merge_patch` on the items themselves. */
module ItemMerging {
  import opened Bytes
  import opened Json
  import opened ChildLists
  import opened ItemTrees
  import opened ItemPaths
  import opened ItemWalks
  import opened ItemEdits
  import opened ItemPatching
  import M = Merging

  /** `cJSON_CreateObject` */
  method CreateObject() returns (item: Item, ghost s: Shape)
    ensures fresh(item) && item.next == null && item.kind == ObjectItem && s.item == item
    ensures Tree(s) && Nodes(s) == {item} && Members(s.children) == []
  {
    item := new Item();
    item.kind := ObjectItem;
    s := Shape(item, []);
  }

  ghost function Target(target: Item?, s: Shape): Option<Json>
    reads s.item`kind, s.item`number, s.item`text, NodesAll(s.children)
  {
    if target == null then None else Some(JsonOf(s))
  }

  /** `merge_patch`: the target is rebuilt in place, or replaced, into what merging makes of its value. */
  method MergePatch(target: Item?, patch: Item, cs: bool, ghost s: Shape, ghost q: Shape) returns (result: Item, ghost r: Shape)
    requires Tree(q) && q.item == patch
    requires target != null ==> Tree(s) && s.item == target && target.next == null && Nodes(s) !! Nodes(q)
    modifies if target == null then {} else Nodes(s)
    ensures Tree(r) && r.item == result && result.next == null
    ensures forall n | n in Nodes(r) :: fresh(n) || (target != null && n in Nodes(s))
    ensures JsonOf(r) == M.MergePatch(old(Target(target, s)), old(JsonOf(q)), cs)
    decreases q, 1
  {
    hide Tree, Forest, NodesAll, Nodes, BelowAll, Members, Values, JsonOf, Children, Roots;
    KindOf(q);
    TreeExists(q);
    if patch.kind != ObjectItem {
      result, r := Duplicate(patch, true, q);
      return;
    }
    if target != null {
      KindOf(s);
      TreeExists(s);
    }
    if target == null || target.kind != ObjectItem {
      result, r := CreateObject();
    } else {
      result, r := target, s;
    }
    r := MergeMembers(result, patch, cs, r, q);
    KindOf(r);
  }

  /** The loop along the members of the patch. */
  method MergeMembers(target: Item, patch: Item, cs: bool, ghost s: Shape, ghost q: Shape) returns (ghost r: Shape)
    requires Tree(s) && s.item == target && target.kind == ObjectItem && target.next == null
    requires Tree(q) && q.item == patch && Nodes(s) !! Nodes(q)
    modifies Nodes(s)
    ensures Tree(r) && r.item == target && target.kind == ObjectItem && target.next == null
    ensures forall n | n in Nodes(r) :: fresh(n) || n in Nodes(s)
    ensures Members(r.children) == M.MergeMembers(old(Members(s.children)), old(Members(q.children)), cs)
    decreases q, 0
  {
    hide Tree, Forest, NodesAll, Nodes, BelowAll, Members, Values, JsonOf, Children, Roots, M.MergeMembers;
    ghost var ms, pm, i: nat := Members(s.children), Members(q.children), 0;
    r := s;
    TreeExists(s);
    TreeExists(q);
    NodesOf(q);
    FirstChild(q);
    var child := patch.child;
    assert pm[0..] == pm;
    while child != null
      invariant i <= |pm| && child == At(Roots(q.children), i)
      invariant Tree(q) && Members(q.children) == pm
      invariant Tree(r) && r.item == target && target.kind == ObjectItem && target.next == null
      invariant forall n | n in Nodes(r) :: fresh(n) || n in Nodes(s)
      invariant M.MergeMembers(Members(r.children), pm[i..], cs) == M.MergeMembers(ms, pm, cs)
      decreases |pm| - i
    {
      assert pm[i..][1..] == pm[i + 1..];
      r := MergeNext(target, child, cs, r, q, i);
      NextChild(q, i);
      child := child.next;
      i := i + 1;
    }
    NoMembers(Members(r.children), pm[i..], cs);
  }

  lemma NoMembers(ms: seq<Member<Json>>, pm: seq<Member<Json>>, cs: bool)
    requires pm == []
    ensures M.MergeMembers(ms, pm, cs) == ms
  {
  }

  lemma FirstMember(ms: seq<Member<Json>>, pm: seq<Member<Json>>, cs: bool)
    requires pm != []
    ensures var k, x := pm[0].key, pm[0].value;
            M.MergeMembers(ms, pm, cs) ==
            M.MergeMembers(if x.Null? then M.Drop(ms, k, cs) else M.Drop(ms, k, cs) + [Member(k, M.MergePatch(M.Item(ms, k, cs), x, cs))], pm[1..], cs)
  {
    hide M.MergePatch, M.Drop, M.Item;
  }

  /** One turn: the member is deleted, or detached, merged and linked at the end. */
  method MergeNext(target: Item, child: Item, cs: bool, ghost s: Shape, ghost q: Shape, ghost i: nat) returns (ghost r: Shape)
    requires Tree(s) && s.item == target && target.kind == ObjectItem && target.next == null
    requires Tree(q) && Nodes(s) !! Nodes(q) && i < |q.children| && child == Roots(q.children)[i]
    modifies Nodes(s)
    ensures Tree(q) && Members(q.children) == old(Members(q.children))
    ensures Tree(r) && r.item == target && target.kind == ObjectItem && target.next == null
    ensures forall n | n in Nodes(r) :: fresh(n) || n in Nodes(s)
    ensures var pm := Members(q.children)[i..];
            M.MergeMembers(Members(r.children), pm[1..], cs) == M.MergeMembers(old(Members(s.children)), pm, cs)
    decreases q, 0, 0
  {
    hide Tree, Forest, NodesAll, Nodes, BelowAll, Members, Values, JsonOf, Children, Roots, M.MergeMembers, M.MergePatch, FindKey;
    ghost var c := q.children[i];
    TakeOutMembers(q.children, i);
    TakeOutNodes(q.children, i);
    ChildValue(q, i);
    TreeExists(q);
    TreeExists(s);
    NodesOf(q);
    NodesOf(s);
    NewItem(s);
    RootsAndBelow(q.children);
    NullOf(c);
    FirstMember(Members(s.children), Members(q.children)[i..], cs);
    if child.kind == NullItem {
      r := DeleteItemFromObject(target, child.key, cs, s);
    } else {
      r := MergeMember(target, child, cs, s, c);
    }
  }

  lemma NullOf(s: Shape)
    requires Tree(s)
    ensures JsonOf(s).Null? <==> s.item.kind == NullItem
  {
    hide Tree, Forest, NodesAll, BelowAll, Members, Values;
  }

  /** The member of the child's name is detached and merged, and the result linked under that name. */
  method MergeMember(target: Item, child: Item, cs: bool, ghost s: Shape, ghost c: Shape) returns (ghost r: Shape)
    requires Tree(s) && s.item == target && target.kind == ObjectItem && target.next == null
    requires Tree(c) && c.item == child && Nodes(s) !! Nodes(c)
    modifies Nodes(s)
    ensures Tree(r) && r.item == target && target.kind == ObjectItem && target.next == null
    ensures forall n | n in Nodes(r) :: fresh(n) || n in Nodes(s)
    ensures var ms, k := old(Members(s.children)), child.key;
            Members(r.children) == M.Drop(ms, k, cs) + [Member(k, M.MergePatch(M.Item(ms, k, cs), old(JsonOf(c)), cs))]
    decreases c, 2
  {
    hide Tree, Forest, NodesAll, Nodes, BelowAll, Members, Values, JsonOf, Children, Roots, M.MergePatch, FindKey, Without;
    TreeExists(c);
    TreeExists(s);
    NodesOf(c);
    NodesOf(s);
    NewItem(s);
    var item, merged;
    ghost var t, u;
    item, r, t := DetachItemFromObject(target, child.key, cs, s);
    TreeExists(r);
    NodesOf(r);
    KindOf(r);
    merged, u := MergePatch(item, child, cs, t, c);
    KindOf(r);
    NewItem(u);
    r := AddMember(target, child.key, merged, r, u);
    KindOf(r);
  }
}

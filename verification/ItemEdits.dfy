/** Detaching and linking whole subtrees. */
module ItemEdits {
  import opened Json
  import opened ChildLists
  import opened ItemTrees
  import opened ItemPaths
  import opened ItemWalks

  lemma NodesOf(p: Shape)
    ensures Nodes(p) == {p.item} + NodesAll(p.children)
  {
  }

  lemma NewItem(t: Shape, tails: bool := true)
    requires Tree(t, tails)
    ensures t.item in Nodes(t) && t.item !in NodesAll(t.children)
  {
  }

  /** What relinking the children does not touch. */
  lemma RootsApart(p: Shape, tails: bool := true)
    requires Tree(p, tails)
    ensures forall i {:trigger Roots(p.children)[i]} | 0 <= i < |p.children| ::
              Roots(p.children)[i] !in BelowAll(p.children) && Roots(p.children)[i] != p.item && Roots(p.children)[i] in NodesAll(p.children)
    ensures p.item !in BelowAll(p.children)
    ensures forall i {:trigger p.children[i]} | 0 <= i < |p.children| :: p.children[i].item == Roots(p.children)[i]
  {
    hide Forest, NodesAll, BelowAll, Children;
    RootsNotBelow(p.children, tails);
    RootsAndBelow(p.children);
  }

  /** `cJSON_DetachItemViaPointer`, and `detach_item_from_array`: the subtree at an index becomes a tree of its own. */
  method DetachChild(parent: Item, item: Item, ghost p: Shape, ghost i: nat)
    requires Tree(p) && p.item == parent && i < |p.children| && item == p.children[i].item
    modifies parent`child, Roots(p.children)`next, Roots(p.children)`prev
    ensures Tree(Shape(parent, Without(p.children, i))) && Tree(p.children[i])
    ensures item.next == null && item.prev == null
    ensures Values(p.children) == old(Values(p.children)) && Members(p.children) == old(Members(p.children))
  {
    hide Tree, Forest, Linked, NodesAll, BelowAll, Members, Values, JsonOf, Children, Roots, Without;
    Rooted(p);
    RootsApart(p);
    TreeExists(p);
    DetachItemViaPointer(parent, item, Roots(p.children), i);
    assert Forest(p.children);
    TakeOut(p.children, i);
    TakeOutNodes(p.children, i);
    MakeTree(Shape(parent, Without(p.children, i)));
  }

  lemma NewRoot(p: Shape, t: Shape)
    requires Tree(p) && Tree(t) && Nodes(t) !! Nodes(p)
    ensures t.item !in BelowAll(p.children) && t.item !in NodesAll(t.children) && t.item != p.item && t.item !in NodesAll(p.children)
    ensures forall i {:trigger Roots(p.children)[i]} | 0 <= i < |p.children| ::
              Roots(p.children)[i] !in NodesAll(t.children) && Roots(p.children)[i] != t.item
    ensures NodesAll(t.children) !! NodesAll(p.children)
    ensures t.item !in Roots(p.children) && p.item !in NodesAll(t.children) && Nodes(t) !! NodesAll(p.children)
  {
    hide Forest, NodesAll, BelowAll, Children;
    RootsAndBelow(p.children);
  }

  /** `insert_item_in_array` with a whole subtree. */
  method InsertChild(parent: Item, which: nat, item: Item, ghost p: Shape, ghost t: Shape) returns (ok: bool)
    requires Tree(p) && p.item == parent && Container(parent.kind)
    requires Tree(t) && t.item == item && Nodes(t) !! Nodes(p) && item.next == null
    modifies parent`child, item`prev, item`next, Roots(p.children)`next, Roots(p.children)`prev
    ensures ok <==> which <= |p.children|
    ensures Tree(if ok then Shape(parent, Inserted(p.children, which, t)) else p)
    ensures Values(p.children) == old(Values(p.children)) && Members(p.children) == old(Members(p.children))
    ensures JsonOf(t) == old(JsonOf(t))
  {
    hide Tree, Forest, Linked, NodesAll, BelowAll, Members, Values, JsonOf, Children, Roots, Inserted, Nodes;
    Rooted(p);
    RootsApart(p);
    TreeExists(p);
    NewRoot(p, t);
    TreeExists(t);
    ok := InsertItemWithin(parent, which, item, Roots(p.children));
    assert Forest(p.children) && Tree(t);
    if ok { InsertedTree(p, which, t); } else { MakeTree(p); }
  }

  lemma InsertedTree(p: Shape, which: nat, t: Shape)
    requires which <= |p.children| && p.item !in NodesAll(p.children) && p.item !in Nodes(t) && Container(p.item.kind)
    requires Forest(p.children) && Tree(t) && Nodes(t) !! NodesAll(p.children)
    requires Children(p.item, Inserted(Roots(p.children), which, t.item))
    ensures Tree(Shape(p.item, Inserted(p.children, which, t)))
  {
    hide Tree, Forest, Linked, NodesAll, BelowAll, Children, Roots, Inserted, Nodes;
    PutIn(p.children, which, t);
    PutInNodes(p.children, which, t);
    MakeTree(Shape(p.item, Inserted(p.children, which, t)));
  }

  /** `cJSON_AddItemToArray` with a whole subtree. */
  method AppendChild(parent: Item, item: Item, ghost p: Shape, ghost t: Shape)
    requires Tree(p) && p.item == parent && Container(parent.kind)
    requires Tree(t) && t.item == item && Nodes(t) !! Nodes(p) && item.next == null
    modifies parent`child, item`prev, item`next, Roots(p.children)`next, Roots(p.children)`prev
    ensures Tree(Shape(parent, p.children + [t]))
    ensures Values(p.children) == old(Values(p.children)) && Members(p.children) == old(Members(p.children))
    ensures JsonOf(t) == old(JsonOf(t))
  {
    hide Tree, Forest, Linked, NodesAll, BelowAll, Members, Values, JsonOf, Children, Roots, Inserted, Nodes;
    Rooted(p);
    RootsApart(p);
    TreeExists(p);
    NewRoot(p, t);
    TreeExists(t);
    var ok := AddItemToArray(parent, item, Roots(p.children));
    assert Forest(p.children) && Tree(t);
    AppendForest(p.children, t);
    AppendShapes(p.children, t);
    MakeTree(Shape(parent, p.children + [t]));
  }
}

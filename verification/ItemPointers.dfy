/** `cJSONUtils_FindPointerFromObjectTo` on the items, and following the pointer it finds. */
module ItemPointers {
  import opened Bytes
  import opened Json
  import opened Pointers
  import opened Locating
  import opened ChildLists
  import opened ItemTrees
  import opened ItemPaths
  import opened ItemWalks
  import opened ItemEdits

  /** The search for an item below another one: the pointer spelled along the way, or NULL if it is nowhere there. */
  method FindPointerFromObjectTo(root: Item, target: Item, ghost s: Shape) returns (pointer: Option<Str>, ghost pos: Position)
    requires Tree(s) && s.item == root
    ensures pointer.Some? <==> target in Nodes(s)
    ensures pointer.Some? ==> Spelled(s, target, pointer.value, pos)
    decreases s
  {
    hide Tree, Forest, NodesAll, Members, Values, JsonOf, BelowAll, Roots;
    pointer, pos := Some([]), [];
    NodesOf(s);
    if root == target { return; }
    pointer := None;
    FirstChild(s);
    KindOf(s);
    var child, index := root.child, 0;
    while child != null
      invariant 0 <= index <= |s.children| && child == ChildLists.At(Roots(s.children), index)
      invariant Tree(s) && pointer == None && forall i | 0 <= i < index :: target !in Nodes(s.children[i])
      decreases |s.children| - index
    {
      ChildValue(s, index);
      NextChild(s, index);
      ghost var rest;
      TreeExists(s);
      TreeExists(s.children[index]);
      pointer, rest := FindPointerFromObjectTo(child, target, s.children[index]);
      if pointer.Some? {
        pos := [index] + rest;
        Extended(s, index, target, pointer.value, rest);
        TakeOutNodes(s.children, index);
        if root.kind == ArrayItem {
          pointer := Some([SLASH] + (Decimal(index) + pointer.value));
        } else {
          pointer := Some([SLASH] + (Encode(child.key) + pointer.value));
        }
        return;
      }
      child := child.next;
      index := index + 1;
    }
    NowhereBelow(s.children, target);
  }

  /** The pointer of an item at a place. */
  ghost predicate Spelled(s: Shape, target: Item, pointer: Str, pos: Position)
    reads s.item`kind, s.item`number, s.item`text, NodesAll(s.children)
  {
    && IsPlace(s, pos) && ShapeAt(s, pos).item == target
    && IsPosition(JsonOf(s), pos) && pointer == PointerTo(JsonOf(s), pos)
  }

  lemma Extended(s: Shape, i: nat, target: Item, pointer: Str, pos: Position)
    requires Tree(s) && i < |s.children| && Spelled(s.children[i], target, pointer, pos)
    ensures s.item.kind == ArrayItem || s.item.kind == ObjectItem
    ensures Spelled(s, target, [SLASH] + ((if s.item.kind == ArrayItem then Decimal(i) else Encode(s.children[i].item.key)) + pointer), [i] + pos)
  {
    hide Tree, Forest, NodesAll, Members, Values, JsonOf, BelowAll, Roots;
    ChildValue(s, i);
    KindOf(s);
    TakeOutMembers(s.children, i);
    assert ([i] + pos)[1..] == pos;
  }

  lemma {:induction false} NowhereBelow(cs: seq<Shape>, target: Item)
    requires forall i | 0 <= i < |cs| :: target !in Nodes(cs[i])
    ensures target !in NodesAll(cs)
    decreases cs
  {
    hide Nodes;
    if cs != [] {
      assert forall i | 0 <= i < |cs| - 1 :: cs[1..][i] == cs[i + 1];
      NowhereBelow(cs[1..], target);
    }
  }

  /** An item of a tree stands in one place only. */
  lemma {:induction false} OnePlace(s: Shape, p: Position, q: Position)
    requires Tree(s) && IsPlace(s, p) && IsPlace(s, q) && ShapeAt(s, p).item == ShapeAt(s, q).item
    ensures p == q
    decreases |p|
  {
    hide Tree, Forest, NodesAll, BelowAll, Roots, JsonOf;
    PlaceValue(s, p);
    PlaceValue(s, q);
    NewItem(s);
    if p != [] || q != [] {
      NodesOf(ShapeAt(s, p));
      NodesOf(ShapeAt(s, q));
      assert p != [] && q != [];
      var i, j := p[0], q[0];
      ChildValue(s, i);
      PlaceValue(s.children[i], p[1..]);
      ChildValue(s, j);
      PlaceValue(s.children[j], q[1..]);
      if i != j { ApartChildren(s, i, j); }
      OnePlace(s.children[i], p[1..], q[1..]);
    }
  }

  lemma ApartChildren(s: Shape, i: nat, j: nat)
    requires Tree(s) && i < |s.children| && j < |s.children| && i != j
    ensures Nodes(s.children[i]) !! Nodes(s.children[j])
  {
    hide Tree, Forest, NodesAll, BelowAll, Roots;
    Rooted(s);
    TakeOut(s.children, i);
    var rest, k := Without(s.children, i), if j < i then j else j - 1;
    assert rest[k] == s.children[j];
    TakeOutNodes(rest, k);
  }

  /**
   * `cJSONUtils_FindPointerFromObjectTo`, and then `cJSONUtils_GetPointerCaseSensitive`: the very item comes back
   * exactly when no object on the way to it holds an earlier member of the same name; so it always does
   * when names are distinct, whatever characters they contain.
   */
  method FindAndFollow(root: Item, target: Item, ghost s: Shape) returns (found: Item?, ghost pos: Position)
    requires Tree(s) && s.item == root && target in Nodes(s)
    ensures IsPlace(s, pos) && ShapeAt(s, pos).item == target && IsPosition(JsonOf(s), pos)
    ensures Addressable(pos) ==> (found == target <==> FirstOfItsName(JsonOf(s), pos))
    ensures Distinct(JsonOf(s), true) && Addressable(pos) ==> found == target
  {
    hide Tree, Forest, NodesAll, Nodes, BelowAll, JsonOf, Locate, FirstOfItsName, Distinct;
    TreeExists(s);
    var pointer;
    pointer, pos := FindPointerFromObjectTo(root, target, s);
    ghost var q;
    found, q := GetItemFromPointer(root, pointer.value, true, s);
    PlaceValue(s, pos);
    if Addressable(pos) { FollowPointer(JsonOf(s), pos); }
    if Distinct(JsonOf(s), true) { DistinctIsFirst(JsonOf(s), pos); }
    if found == target { OnePlace(s, q, pos); }
  }
}

/** The test operation on the items themselves: `compare_json` sorts both sides in place. */
module ItemTesting {
  import opened Bytes
  import opened Json
  import opened Locating
  import opened ChildLists
  import opened ItemTrees
  import opened ItemPaths
  import opened ItemWalks
  import opened ItemPatching
  import opened ItemComparing
  import opened ItemApplying
  import C = Comparing
  import P = Patching

  /** What a test leaves of the patch: its value, sorted. */
  function PatchAfter(patch: Json, t: Json, path: Str, cs: bool): Json {
    match (Locate(t, path, cs), P.Lookup(patch, P.VALUE, cs))
    case (Some(pos), Some(x)) =>
      var i := FindKey(patch.members, P.VALUE, cs);
      PutAt(patch, [i], C.CompareJson(NodeAt(t, pos), x, cs).b)
    case (_, _) => patch
  }

  /** The test of `apply_patch`: the document is left as specified, with the same status; heads need not point back to their tails. */
  method ApplyTest(root: Item, patch: Item, path: Str, cs: bool, ghost s: Shape, ghost q: Shape)
    returns (status: int, ghost s': Shape, ghost q': Shape)
    requires Tree(s) && s.item == root && Tree(q) && q.item == patch && Nodes(s) !! Nodes(q)
    modifies Nodes(s)`child, Nodes(s)`next, Nodes(s)`prev, Nodes(q)`child, Nodes(q)`next, Nodes(q)`prev
    ensures Tree(s', false) && s'.item == root && Nodes(s') == Nodes(s)
    ensures Tree(q', false) && q'.item == patch && Nodes(q') == Nodes(q)
    ensures P.TestAt(old(JsonOf(s)), path, P.Lookup(old(JsonOf(q)), P.VALUE, cs), cs) == P.Outcome(JsonOf(s'), status)
    ensures JsonOf(q') == PatchAfter(old(JsonOf(q)), old(JsonOf(s)), path, cs)
  {
    hide Tree, Forest, NodesAll, Nodes, BelowAll, Members, Values, JsonOf, Children, Roots, C.CompareJson;
    status, s', q' := 1, s, q;
    TreeExists(s);
    TreeExists(q);
    Loosen(s);
    Loosen(q);
    ghost var pos, i;
    var item, value;
    item, pos := GetItemFromPointer(root, path, cs, s);
    value, i := LookUp(patch, P.VALUE, cs, q);
    if item == null || value == null { return; }
    status, s', q' := TestAtPlace(item, value, cs, s, pos, q, i);
  }

  /** Both sides are compared where they are, and both trees close around them. */
  method TestAtPlace(item: Item, value: Item, cs: bool, ghost s: Shape, ghost pos: Position, ghost q: Shape, ghost i: nat)
    returns (status: int, ghost s': Shape, ghost q': Shape)
    requires Tree(s) && Tree(q) && Nodes(s) !! Nodes(q)
    requires IsPlace(s, pos) && ShapeAt(s, pos).item == item && i < |q.children| && q.children[i].item == value
    modifies Nodes(s)`child, Nodes(s)`next, Nodes(s)`prev, Nodes(q)`child, Nodes(q)`next, Nodes(q)`prev
    ensures Tree(s', false) && s'.item == s.item && Nodes(s') == Nodes(s)
    ensures Tree(q', false) && q'.item == q.item && Nodes(q') == Nodes(q)
    ensures IsPosition(old(JsonOf(s)), pos) && i < ChildCount(old(JsonOf(q)))
    ensures var r := C.CompareJson(NodeAt(old(JsonOf(s)), pos), Child(old(JsonOf(q)), i), cs);
            && status == (if r.same then 0 else 1)
            && JsonOf(s') == PutAt(old(JsonOf(s)), pos, r.a) && JsonOf(q') == PutAt(old(JsonOf(q)), [i], r.b)
  {
    hide Tree, Forest, NodesAll, Nodes, BelowAll, Members, Values, JsonOf, Children, Roots, C.CompareJson, Around, Filled, Outside, PutAt, PutShape;
    TreeExists(s);
    TreeExists(q);
    PlaceOfChild(q, i);
    Opens(s, pos);
    Opens(q, [i]);
    ghost var p, u := ShapeAt(s, pos), ShapeAt(q, [i]);
    var same;
    ghost var x, y;
    same, x, y := CompareJson(item, value, cs, p, u);
    status := if same then 0 else 1;
    Closes(s, pos, x);
    Closes(q, [i], y);
    s', q' := PutShape(s, pos, x), PutShape(q, [i], y);
  }

  lemma PlaceOfChild(q: Shape, i: nat)
    requires Tree(q) && i < |q.children|
    ensures IsPlace(q, [i]) && ShapeAt(q, [i]) == q.children[i] && i < ChildCount(JsonOf(q)) && NodeAt(JsonOf(q), [i]) == Child(JsonOf(q), i)
  {
    hide Tree, JsonOf;
    ChildValue(q, i);
    assert [i][1..] == [];
  }

  /** What is known of a place before the subtree there is changed. */
  lemma Opens(s: Shape, pos: Position)
    requires Tree(s) && IsPlace(s, pos)
    ensures IsPosition(JsonOf(s), pos) && forall v :: Filled(s, pos, v) == PutAt(JsonOf(s), pos, v)
    ensures var p := ShapeAt(s, pos);
            && Around(s, pos) && Tree(p, false) && JsonOf(p) == NodeAt(JsonOf(s), pos)
            && Nodes(p) <= Nodes(s) && NodesAll(p.children) <= Nodes(s) && Nodes(p) !! Outside(s, pos) && Nodes(s) == Outside(s, pos) + Nodes(p)
            && p.item in Nodes(s) && p.item !in Outside(s, pos) && p.item !in NodesAll(p.children) && NodesAll(p.children) !! Outside(s, pos)
  {
    hide Tree, Forest, NodesAll, Nodes, BelowAll, Members, Values, JsonOf, Children, Roots;
    PlaceValue(s, pos);
    Loosen(ShapeAt(s, pos));
    OpenHole(s, pos);
    OutsideOf(s, pos);
    PlaceApart(s, pos);
    FillAny(s, pos);
  }

  lemma Closes(s: Shape, pos: Position, x: Shape)
    requires IsPlace(s, pos) && Around(s, pos) && Kept(ShapeAt(s, pos), x) && Nodes(ShapeAt(s, pos)) !! Outside(s, pos)
    ensures Tree(PutShape(s, pos, x), false) && PutShape(s, pos, x).item == s.item
    ensures Nodes(PutShape(s, pos, x)) == Outside(s, pos) + Nodes(ShapeAt(s, pos))
    ensures JsonOf(PutShape(s, pos, x)) == Filled(s, pos, JsonOf(x))
  {
    hide Tree, Forest, NodesAll, BelowAll, Members, Values, JsonOf, Children, Roots, Filled, Around;
    CloseHole(s, pos, x, false);
    ClosedValue(s, pos, x);
  }
}

/** `detach_path` and the addition of a value at a path, on the items themselves. */
module ItemPatching {
  import opened Bytes
  import opened Json
  import opened Pointers
  import opened Decoding
  import opened Locating
  import opened ChildLists
  import opened ItemTrees
  import opened ItemPaths
  import opened ItemWalks
  import opened ItemEdits
  import opened Patching

  /** The token after the last slash, un-escaped in a buffer of its own. */
  method DecodeCopy(token: Str) returns (r: Str)
    ensures r == DecodeToken(token)
  {
    var bytes := WithTerminator(token);
    var buf := new byte[|bytes|](i requires 0 <= i < |bytes| => bytes[i]);
    assert buf[..] == bytes;
    DecodePointerInPlace(buf);
    r := CString(buf[..]);
  }

  // ---- one parent ----

  function WithoutChild(v: Json, i: nat): Json
    requires i < ChildCount(v)
  {
    match v
    case Array(items) => Array(Without(items, i))
    case Object(ms) => Object(Without(ms, i))
  }

  /** The child that `detach_path` is about to detach. */
  method FindChild(parent: Item, token: Str, ghost p: Shape) returns (item: Item?, ghost i: nat)
    requires Tree(p) && p.item == parent
    ensures item == null <==> DetachHere(JsonOf(p), token) == None
    ensures item != null ==> i < |p.children| && item == p.children[i].item && i < ChildCount(JsonOf(p))
    ensures item != null ==> DetachHere(JsonOf(p), token) == Some(Detached(WithoutChild(JsonOf(p), i), Child(JsonOf(p), i)))
  {
    hide Tree, Forest, NodesAll, BelowAll, Members, Values, JsonOf, Children, Roots, FindKey;
    KindOf(p);
    TreeExists(p);
    item, i := null, 0;
    if parent.kind == ArrayItem {
      var index := DecodeArrayIndex(token);
      if index == None { return; }
      item := GetArrayItem(parent, index.value, Roots(p.children));
      i := index.value;
    } else if parent.kind == ObjectItem {
      item := GetObjectItem(parent, token, false, p);
      i := FindKey(Members(p.children), token, false);
    }
  }

  /** The value of a parent that has lost a child. */
  lemma WithoutValue(p: Shape, i: nat, v: Json)
    requires i < |p.children| && Container(p.item.kind)
    requires v == if p.item.kind == ArrayItem then Array(Values(p.children)) else Object(Members(p.children))
    ensures i < ChildCount(v) && JsonOf(Shape(p.item, Without(p.children, i))) == WithoutChild(v, i)
    ensures JsonOf(p.children[i]) == Child(v, i)
  {
    hide Members, Values;
    TakeOutValues(p.children, i);
    TakeOutMembers(p.children, i);
  }

  /** `detach_path`: the located item becomes a tree of its own, and the rest stays in place around the gap. */
  method DetachPath(root: Item, path: Str, cs: bool, ghost s: Shape) returns (item: Item?, ghost s': Shape, ghost t: Shape)
    requires Tree(s) && s.item == root
    modifies Nodes(s)`child, Nodes(s)`next, Nodes(s)`prev
    ensures Tree(s') && s'.item == root
    ensures item == null ==> s' == s && JsonOf(s) == old(JsonOf(s)) && Patching.Detach(JsonOf(s), path, cs) == None
    ensures item != null ==> Tree(t) && t.item == item && item.next == null && item.prev == null
    ensures item != null ==> Nodes(s') !! Nodes(t) && Nodes(s) == Nodes(s') + Nodes(t)
    ensures item != null ==> Patching.Detach(old(JsonOf(s)), path, cs) == Some(Detached(JsonOf(s'), JsonOf(t)))
  {
    hide Tree, Forest, NodesAll, Nodes, BelowAll, Members, Values, JsonOf, Children, Roots, Without, DetachHere, WithoutChild;
    item, s', t := null, s, s;
    var cut := LastSlash(path);
    if cut == None { return; }
    TreeExists(s);
    var parent;
    ghost var pos;
    parent, pos := GetItemFromPointer(root, path[..cut.value], cs, s);
    var token := DecodeCopy(path[cut.value + 1..]);
    if parent == null { return; }
    ghost var p := ShapeAt(s, pos);
    PlaceValue(s, pos);
    TreeExists(p);
    ghost var i;
    item, i := FindChild(parent, token, p);
    if item == null { return; }
    s', t := DetachAtPlace(parent, item, s, pos, i);
  }

  /** The child at a place goes, and the tree closes around what is left of its parent. */
  method DetachAtPlace(parent: Item, item: Item, ghost s: Shape, ghost pos: Position, ghost i: nat) returns (ghost s': Shape, ghost t: Shape)
    requires Tree(s) && IsPlace(s, pos) && Tree(ShapeAt(s, pos))
    requires var p := ShapeAt(s, pos); p.item == parent && i < |p.children| && item == p.children[i].item
    modifies Nodes(s)`child, Nodes(s)`next, Nodes(s)`prev
    ensures Tree(s') && s'.item == s.item && Tree(t) && t.item == item && item.next == null && item.prev == null
    ensures Nodes(s') !! Nodes(t) && Nodes(s) == Nodes(s') + Nodes(t)
    ensures var v := old(JsonOf(ShapeAt(s, pos)));
            && i < ChildCount(v) && JsonOf(t) == Child(v, i)
            && IsPosition(old(JsonOf(s)), pos) && JsonOf(s') == PutAt(old(JsonOf(s)), pos, WithoutChild(v, i))
  {
    hide Tree, Forest, NodesAll, Nodes, BelowAll, Members, Values, JsonOf, Children, Roots, Without, WithoutChild;
    ghost var p, v := ShapeAt(s, pos), JsonOf(ShapeAt(s, pos));
    t := p.children[i];
    KindOf(p);
    WithoutValue(p, i, v);
    OpenHole(s, pos);
    FillHole(s, pos, WithoutChild(v, i));
    OutsideOf(s, pos);
    PlaceApart(s, pos);
    RootsApart(p);
    PartedNodes(p, i);
    TreeExists(s);
    DetachChild(parent, item, p, i);
    ghost var x := Shape(parent, Without(p.children, i));
    WithoutValue(p, i, v);
    CloseHole(s, pos, x);
    ClosedValue(s, pos, x);
    s' := PutShape(s, pos, x);
  }

  /** The items that an edit at a place relinks are inside the subtree there. */
  lemma PlaceApart(s: Shape, pos: Position)
    requires Tree(s) && IsPlace(s, pos)
    ensures var p := ShapeAt(s, pos);
            && Tree(p) && p.item in Nodes(s) && p.item !in Outside(s, pos) && p.item !in NodesAll(p.children)
            && NodesAll(p.children) <= Nodes(s) && NodesAll(p.children) !! Outside(s, pos)
            && Outside(s, pos) <= Nodes(s)
  {
    hide Tree, Forest, NodesAll, BelowAll;
    PlaceValue(s, pos);
    OutsideOf(s, pos);
    Rooted(ShapeAt(s, pos));
  }

  /** A detached child and what stays share nothing. */
  lemma PartedNodes(p: Shape, i: nat)
    requires Tree(p) && i < |p.children|
    ensures var x, c := Shape(p.item, Without(p.children, i)), p.children[i];
            Nodes(p) == Nodes(x) + Nodes(c) && Nodes(x) !! Nodes(c)
  {
    hide Tree, NodesAll, Forest, Without;
    Rooted(p);
    TakeOut(p.children, i);
    TakeOutNodes(p.children, i);
  }

  // ---- adding ----

  /** `cJSON_AddItemToObject`: the item takes the name and becomes the last member. */
  method AddMember(parent: Item, name: Str, item: Item, ghost p: Shape, ghost t: Shape) returns (ghost p': Shape)
    requires Tree(p) && p.item == parent && parent.kind == ObjectItem
    requires Tree(t) && t.item == item && Nodes(t) !! Nodes(p) && item.next == null
    modifies parent`child, item`prev, item`next, item`key, NodesAll(p.children)`next, NodesAll(p.children)`prev
    ensures Tree(p') && p'.item == parent && Nodes(p') == Nodes(p) + Nodes(t)
    ensures JsonOf(p') == Object(old(Members(p.children)) + [Member(name, old(JsonOf(t)))])
  {
    hide Tree, Forest, NodesAll, Nodes, BelowAll, Members, Values, JsonOf, Children, Roots;
    RootsApart(p);
    NewRoot(p, t);
    TreeExists(p);
    TreeExists(t);
    item.key := name;
    AppendChild(parent, item, p, t);
    p' := Shape(parent, p.children + [t]);
    KindOf(p');
    AppendValues(p.children, t);
    NodesOf(p);
    NodesOf(p');
    AppendShapes(p.children, t);
  }

  /** `cJSON_DetachItemFromObject`: the member that the name finds becomes a tree of its own. */
  method DetachItemFromObject(parent: Item, name: Str, cs: bool, ghost p: Shape) returns (item: Item?, ghost p': Shape, ghost t: Shape)
    requires Tree(p) && p.item == parent && parent.kind == ObjectItem
    modifies parent`child, NodesAll(p.children)`next, NodesAll(p.children)`prev
    ensures Tree(p') && p'.item == parent && Nodes(p') <= Nodes(p) && NodesAll(p'.children) <= NodesAll(p.children)
    ensures var ms := old(Members(p.children)); var i := FindKey(ms, name, cs);
            && Members(p'.children) == (if i < |ms| then Without(ms, i) else ms)
            && (item == null <==> i == |ms|)
            && (item != null ==> Tree(t) && t.item == item && JsonOf(t) == ms[i].value && item.next == null && item.prev == null)
    ensures item != null ==> Nodes(t) !! Nodes(p') && Nodes(t) <= NodesAll(p.children)
  {
    hide Tree, Forest, NodesAll, Nodes, BelowAll, Members, Values, JsonOf, Children, Roots, Without, FindKey;
    p', t := p, p;
    ghost var i := FindKey(Members(p.children), name, cs);
    TreeExists(p);
    item := GetObjectItem(parent, name, cs, p);
    if item == null { return; }
    RootsApart(p);
    PartedNodes(p, i);
    DetachChild(parent, item, p, i);
    p', t := Shape(parent, Without(p.children, i)), p.children[i];
    TakeOutMembers(p.children, i);
    TakeOutNodes(p.children, i);
  }

  /** `cJSON_DeleteItemFromObject` */
  method DeleteItemFromObject(parent: Item, name: Str, cs: bool, ghost p: Shape) returns (ghost p': Shape)
    requires Tree(p) && p.item == parent && parent.kind == ObjectItem
    modifies parent`child, NodesAll(p.children)`next, NodesAll(p.children)`prev
    ensures Tree(p') && p'.item == parent && Nodes(p') <= Nodes(p) && NodesAll(p'.children) <= NodesAll(p.children)
    ensures var ms := old(Members(p.children)); var i := FindKey(ms, name, cs);
            Members(p'.children) == if i < |ms| then Without(ms, i) else ms
  {
    ghost var t;
    var item;
    item, p', t := DetachItemFromObject(parent, name, cs, p);
  }

  /** The end of `apply_patch`: the value is added to the parent, under the last token of the path. */
  method AddToParent(parent: Item, token: Str, item: Item, cs: bool, ghost p: Shape, ghost t: Shape) returns (status: int, ghost p': Shape)
    requires Tree(p) && p.item == parent
    requires Tree(t) && t.item == item && Nodes(t) !! Nodes(p) && item.next == null
    modifies parent`child, item`prev, item`next, item`key, NodesAll(p.children)`next, NodesAll(p.children)`prev
    ensures Tree(p') && p'.item == parent && Nodes(p') <= Nodes(p) + Nodes(t)
    ensures AddHere(old(JsonOf(p)), token, old(JsonOf(t)), cs) == if status == 0 then Added(JsonOf(p')) else Failed(status)
    ensures status != 0 ==> p' == p && JsonOf(p) == old(JsonOf(p))
  {
    hide Tree, Forest, NodesAll, Nodes, BelowAll, Members, Values, JsonOf, Children, Roots, Without, FindKey;
    KindOf(p);
    TreeExists(p);
    TreeExists(t);
    RootsApart(p);
    NewRoot(p, t);
    status, p' := 0, p;
    if parent.kind == ArrayItem {
      status, p' := AddElement(parent, token, item, p, t);
    } else if parent.kind == ObjectItem {
      p' := DeleteItemFromObject(parent, token, cs, p);
      p' := AddMember(parent, token, item, p', t);
    } else {
      status := 9;
    }
  }

  /** The same for an array: at the end, or before the element that the token names. */
  method AddElement(parent: Item, token: Str, item: Item, ghost p: Shape, ghost t: Shape) returns (status: int, ghost p': Shape)
    requires Tree(p) && p.item == parent && parent.kind == ArrayItem
    requires Tree(t) && t.item == item && Nodes(t) !! Nodes(p) && item.next == null
    modifies parent`child, item`prev, item`next, NodesAll(p.children)`next, NodesAll(p.children)`prev
    ensures Tree(p') && p'.item == parent && Nodes(p') <= Nodes(p) + Nodes(t)
    ensures AddHere(old(JsonOf(p)), token, old(JsonOf(t)), true) == if status == 0 then Added(JsonOf(p')) else Failed(status)
    ensures status != 0 ==> p' == p && JsonOf(p) == old(JsonOf(p))
  {
    hide Tree, Forest, NodesAll, Nodes, BelowAll, Members, Values, JsonOf, Children, Roots, Inserted;
    KindOf(p);
    TreeExists(p);
    TreeExists(t);
    RootsApart(p);
    NewRoot(p, t);
    status, p' := 0, p;
    if token == [DASH] {
      AppendChild(parent, item, p, t);
      p' := Shape(parent, p.children + [t]);
      AppendValues(p.children, t);
      AppendShapes(p.children, t);
    } else {
      var index := DecodeArrayIndex(token);
      if index == None { return 11, p; }
      var ok := InsertChild(parent, index.value, item, p, t);
      if ok {
        p' := Shape(parent, Inserted(p.children, index.value, t));
        PutInValues(p.children, index.value, t);
        PutInNodes(p.children, index.value, t);
      } else {
        status := 10;
      }
    }
    KindOf(p');
    NodesOf(p);
    NodesOf(p');
  }

  lemma PutSame(v: Json, pos: Position)
    requires IsPosition(v, pos)
    ensures PutAt(v, pos, NodeAt(v, pos)) == v
    decreases |pos|
  {
    if pos != [] {
      PutSame(Child(v, pos[0]), pos[1..]);
      match v {
        case Array(items) => assert items[pos[0] := items[pos[0]]] == items;
        case Object(ms) => assert ms[pos[0] := ms[pos[0]]] == ms;
      }
    }
  }

  /** The value is added to the parent at a place, and the tree closes around the parent. */
  method AddAtPlace(parent: Item, token: Str, item: Item, cs: bool, ghost s: Shape, ghost pos: Position, ghost t: Shape)
    returns (status: int, ghost s': Shape)
    requires Tree(s) && IsPlace(s, pos) && Tree(ShapeAt(s, pos)) && ShapeAt(s, pos).item == parent
    requires Tree(t) && t.item == item && Nodes(t) !! Nodes(s) && item.next == null
    modifies Nodes(s)`child, Nodes(s)`next, Nodes(s)`prev, item`next, item`prev, item`key
    ensures Tree(s') && s'.item == s.item && Nodes(s') <= Nodes(s) + Nodes(t)
    ensures IsPosition(old(JsonOf(s)), pos)
    ensures match AddHere(old(JsonOf(ShapeAt(s, pos))), token, old(JsonOf(t)), cs)
            case Added(v) => status == 0 && JsonOf(s') == PutAt(old(JsonOf(s)), pos, v)
            case Failed(n) => status == n && n != 0 && JsonOf(s') == old(JsonOf(s))
  {
    hide Tree, Forest, NodesAll, Nodes, BelowAll, Members, Values, JsonOf, Children, Roots, AddHere;
    ghost var p := ShapeAt(s, pos);
    ghost var v, was := JsonOf(p), JsonOf(s);
    PlaceValue(s, pos);
    OpenHole(s, pos);
    OutsideOf(s, pos);
    PlaceApart(s, pos);
    NewItem(t);
    TreeExists(s);
    TreeExists(t);
    FillAny(s, pos);
    ghost var x;
    status, x := AddToParent(parent, token, item, cs, p, t);
    CloseHole(s, pos, x);
    ClosedValue(s, pos, x);
    s' := PutShape(s, pos, x);
    PutSame(was, pos);
  }

  /** `FillHole` for every value. */
  lemma FillAny(s: Shape, pos: Position)
    requires Tree(s) && IsPlace(s, pos)
    ensures IsPosition(JsonOf(s), pos)
    ensures forall v :: Filled(s, pos, v) == PutAt(JsonOf(s), pos, v)
  {
    FillHole(s, pos, Null);
    forall v ensures Filled(s, pos, v) == PutAt(JsonOf(s), pos, v) {
      FillHole(s, pos, v);
    }
  }

  /** From "Now, just add value to path" to the end of `apply_patch`. */
  method AddToPath(root: Item, path: Str, value: Item, cs: bool, ghost s: Shape, ghost t: Shape) returns (status: int, ghost s': Shape)
    requires Tree(s) && s.item == root
    requires Tree(t) && t.item == value && Nodes(t) !! Nodes(s) && value.next == null
    modifies Nodes(s)`child, Nodes(s)`next, Nodes(s)`prev, value`next, value`prev, value`key
    ensures Tree(s') && s'.item == root && Nodes(s') <= Nodes(s) + Nodes(t)
    ensures AddAt(old(JsonOf(s)), path, old(JsonOf(t)), cs) == Outcome(JsonOf(s'), status)
  {
    hide Tree, Forest, NodesAll, Nodes, BelowAll, Members, Values, JsonOf, Children, Roots, AddHere;
    status, s' := 9, s;
    var cut := LastSlash(path);
    if cut == None { return; }
    TreeExists(s);
    TreeExists(t);
    var parent;
    ghost var pos;
    parent, pos := GetItemFromPointer(root, path[..cut.value], cs, s);
    var token := DecodeCopy(path[cut.value + 1..]);
    if parent == null { return; }
    PlaceValue(s, pos);
    status, s' := AddAtPlace(parent, token, value, cs, s, pos, t);
  }
}

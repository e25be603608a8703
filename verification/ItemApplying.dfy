/** `apply_patch` and the loop over a whole patch document, on the items themselves. */
module ItemApplying {
  import opened Bytes
  import opened Json
  import opened Locating
  import opened ChildLists
  import opened ItemTrees
  import opened ItemPaths
  import opened ItemWalks
  import opened ItemEdits
  import opened ItemPatching
  import P = Patching

  /** `get_object_item` on an operation: the item of that name and its place among the members. */
  method LookUp(patch: Item, name: Str, cs: bool, ghost q: Shape) returns (r: Item?, ghost i: nat)
    requires Tree(q) && q.item == patch
    ensures r == null <==> P.Lookup(JsonOf(q), name, cs) == None
    ensures r != null ==> i < |q.children| && q.children[i].item == r && Tree(q.children[i]) && Nodes(q.children[i]) <= Nodes(q)
    ensures r != null ==> P.Lookup(JsonOf(q), name, cs) == Some(JsonOf(q.children[i]))
    ensures r != null ==> i == FindKey(JsonOf(q).members, name, cs)
  {
    hide Tree, Forest, NodesAll, BelowAll, Members, Values, JsonOf, Children, Roots, FindKey;
    KindOf(q);
    r, i := null, 0;
    if patch.kind != ObjectItem { return; }
    TreeExists(q);
    r := GetObjectItem(patch, name, cs, q);
    i := FindKey(Members(q.children), name, cs);
    ChildValue(q, i);
    if i < |q.children| { TakeOutMembers(q.children, i); }
  }

  lemma StringOf(s: Shape)
    requires Tree(s)
    ensures JsonOf(s).String? <==> s.item.kind == StringItem
    ensures s.item.kind == StringItem ==> JsonOf(s) == String(s.item.text)
  {
    hide Tree, Forest, NodesAll, BelowAll, Members, Values;
  }

  /** A member that has to be a string. */
  method LookUpString(patch: Item, name: Str, cs: bool, ghost q: Shape) returns (r: Option<Str>)
    requires Tree(q) && q.item == patch
    ensures r == match P.Lookup(JsonOf(q), name, cs) case Some(String(s)) => Some(s) case _ => None
  {
    hide Tree, Forest, NodesAll, BelowAll, Members, Values, JsonOf, Children, Roots, P.Lookup;
    TreeExists(q);
    var item;
    ghost var i;
    item, i := LookUp(patch, name, cs, q);
    r := None;
    if item != null {
      StringOf(q.children[i]);
      if item.kind == StringItem { r := Some(item.text); }
    }
  }

  /** `decode_patch_operation` */
  method DecodePatchOperation(patch: Item, cs: bool, ghost q: Shape) returns (op: Option<Str>)
    requires Tree(q) && q.item == patch
    ensures op == P.DecodeOperation(JsonOf(q), cs)
    ensures op.Some? ==> op.value in {P.ADD, P.REMOVE, P.REPLACE, P.MOVE, P.COPY, P.TEST}
  {
    hide Tree, Forest, NodesAll, BelowAll, Members, Values, JsonOf, Children, Roots, P.Lookup;
    op := LookUpString(patch, P.OP, cs, q);
    if op.Some? && op.value !in {P.ADD, P.REMOVE, P.REPLACE, P.MOVE, P.COPY, P.TEST} { op := None; }
  }

  /** A copy of the "value" member. */
  method FetchValue(patch: Item, cs: bool, ghost q: Shape) returns (value: Item?, ghost t: Shape)
    requires Tree(q) && q.item == patch
    ensures value == null <==> P.Lookup(JsonOf(q), P.VALUE, cs) == None
    ensures value != null ==> Tree(t) && t.item == value && fresh(Nodes(t)) && value.next == null && value.prev == null
    ensures value != null ==> P.Lookup(JsonOf(q), P.VALUE, cs) == Some(JsonOf(t))
  {
    hide Tree, Forest, NodesAll, Nodes, BelowAll, Members, Values, JsonOf, Children, Roots, P.Lookup;
    t := q;
    TreeExists(q);
    ghost var i;
    value, i := LookUp(patch, P.VALUE, cs, q);
    if value == null { return; }
    TreeExists(q.children[i]);
    value, t := Duplicate(value, true, q.children[i]);
  }

  /** What is to be added by move and copy: the item at "from", detached or copied. */
  method FetchFrom(root: Item, patch: Item, move: bool, cs: bool, ghost path: Str, ghost s: Shape, ghost q: Shape)
    returns (status: int, value: Item?, ghost s': Shape, ghost t: Shape)
    requires Tree(s) && s.item == root && Tree(q) && q.item == patch && Nodes(s) !! Nodes(q)
    modifies Nodes(s)`child, Nodes(s)`next, Nodes(s)`prev
    ensures Tree(s') && s'.item == root && Nodes(s') <= Nodes(s)
    ensures var v, from := old(JsonOf(s)), P.Lookup(old(JsonOf(q)), P.FROM, cs);
            var outcome := if move then P.MoveTo(v, path, from, cs) else P.CopyTo(v, path, from, cs);
            outcome == if value == null then P.Outcome(JsonOf(s'), status) else P.AddAt(JsonOf(s'), path, JsonOf(t), cs)
    ensures value == null ==> status != 0
    ensures value != null ==>
              && Tree(t) && t.item == value && value.next == null && value.prev == null
              && Nodes(t) !! Nodes(s') && forall n | n in Nodes(t) :: n in Nodes(s) || fresh(n)
  {
    hide Tree, Forest, NodesAll, Nodes, BelowAll, Members, Values, JsonOf, Children, Roots, P.Lookup, P.AddAt;
    status, value, s', t := 4, null, s, s;
    TreeExists(s);
    TreeExists(q);
    var from;
    ghost var i;
    from, i := LookUp(patch, P.FROM, cs, q);
    if from == null { return; }
    status := 5;
    StringOf(q.children[i]);
    if from.kind != StringItem { return; }
    if move {
      value, s', t := DetachPath(root, from.text, cs, s);
    } else {
      value, t := CopyFrom(root, from.text, cs, s);
    }
  }

  /** A copy of the item that a pointer leads to. */
  method CopyFrom(root: Item, pointer: Str, cs: bool, ghost s: Shape) returns (value: Item?, ghost t: Shape)
    requires Tree(s) && s.item == root
    ensures value == null <==> Locate(JsonOf(s), pointer, cs) == None
    ensures value != null ==>
              && Tree(t) && t.item == value && fresh(Nodes(t)) && value.next == null && value.prev == null
              && JsonOf(t) == NodeAt(JsonOf(s), Locate(JsonOf(s), pointer, cs).value)
  {
    hide Tree, Forest, NodesAll, Nodes, BelowAll, Members, Values, JsonOf, Children, Roots;
    TreeExists(s);
    t := s;
    ghost var pos;
    value, pos := GetItemFromPointer(root, pointer, cs, s);
    if value == null { return; }
    PlaceValue(s, pos);
    TreeExists(ShapeAt(s, pos));
    value, t := Duplicate(value, true, ShapeAt(s, pos));
  }

  /** `overwrite_item` of the root by an unlinked copy, which loses its name. */
  method OverwriteItem(root: Item, replacement: Item, ghost t: Shape) returns (ghost s': Shape)
    requires Tree(t) && t.item == replacement && root !in Nodes(t)
    modifies root
    ensures Tree(s') && s'.item == root && Nodes(s') == Nodes(t) - {replacement} + {root} && JsonOf(s') == old(JsonOf(t))
  {
    hide Tree, Forest, NodesAll, BelowAll, Members, Values, Roots, JsonOf, Children;
    Rooted(t);
    RootsAndBelow(t.children);
    root.kind, root.number, root.text, root.key := replacement.kind, replacement.number, replacement.text, [];
    root.child, root.next, root.prev := replacement.child, replacement.next, replacement.prev;
    s' := Shape(root, t.children);
    Rooted(t);
    Transplanted(t, s');
  }

  lemma Transplanted(t: Shape, s: Shape)
    requires Tree(t) && s.children == t.children && s.item !in Nodes(t)
    requires s.item.kind == t.item.kind && s.item.number == t.item.number && s.item.text == t.item.text && s.item.child == t.item.child
    ensures Tree(s) && JsonOf(s) == JsonOf(t)
  {
    hide Forest, NodesAll, BelowAll, Members, Values;
    RootsAndBelow(t.children);
  }

  /** Neither `test`, which sorts what it compares, nor the removal of the root, which leaves an invalid item. */
  predicate Rebuilds(patch: Json, cs: bool) {
    && P.DecodeOperation(patch, cs) != Some(P.TEST)
    && !(P.DecodeOperation(patch, cs) == Some(P.REMOVE) && P.Lookup(patch, P.PATH, cs) == Some(String([])))
  }

  /** The special case of the root: add and replace overwrite it. */
  method ReplaceRoot(root: Item, patch: Item, cs: bool, ghost s: Shape, ghost q: Shape) returns (status: int, ghost s': Shape)
    requires Tree(s) && s.item == root && Tree(q) && q.item == patch && Nodes(s) !! Nodes(q)
    modifies root
    ensures Tree(s') && s'.item == root && forall n | n in Nodes(s') :: n in Nodes(s) || fresh(n)
    ensures match P.Lookup(old(JsonOf(q)), P.VALUE, cs)
            case Some(x) => status == 0 && JsonOf(s') == x
            case None => status == 7 && JsonOf(s') == old(JsonOf(s))
  {
    hide Tree, Forest, NodesAll, Nodes, BelowAll, Members, Values, JsonOf, Children, Roots, P.Lookup;
    status, s' := 7, s;
    TreeExists(s);
    TreeExists(q);
    NewItem(s);
    var value;
    ghost var t;
    value, t := FetchValue(patch, cs, q);
    if value == null { return; }
    s' := OverwriteItem(root, value, t);
    status := 0;
  }

  /** `apply_patch` rebuilds the tree in place into what the operation makes of its value, and returns the same status. */
  method ApplyPatch(root: Item, patch: Item, cs: bool, ghost s: Shape, ghost q: Shape) returns (status: int, ghost s': Shape)
    requires Tree(s) && s.item == root && Tree(q) && q.item == patch && Nodes(s) !! Nodes(q)
    requires Rebuilds(JsonOf(q), cs)
    modifies Nodes(s)
    ensures Tree(s') && s'.item == root && forall n | n in Nodes(s') :: n in Nodes(s) || fresh(n)
    ensures P.ApplyPatch(old(JsonOf(s)), old(JsonOf(q)), cs) == P.Outcome(JsonOf(s'), status)
  {
    hide Tree, Forest, NodesAll, Nodes, BelowAll, Members, Values, JsonOf, Children, Roots;
    hide P.Lookup, P.DecodeOperation, P.AddAt, P.MoveTo, P.CopyTo, P.TestAt;
    TreeExists(s);
    TreeExists(q);
    NewItem(s);
    status, s' := 2, s;
    var path := LookUpString(patch, P.PATH, cs, q);
    if path == None { return; }
    var op := DecodePatchOperation(patch, cs, q);
    if op == None { return 3, s; }
    if path.value == [] && (op.value == P.REPLACE || op.value == P.ADD) {
      status, s' := ReplaceRoot(root, patch, cs, s, q);
      return;
    }
    status, s' := EditBelow(root, patch, path.value, op.value, cs, s, q);
  }

  /** The rest of `apply_patch`. */
  method EditBelow(root: Item, patch: Item, path: Str, op: Str, cs: bool, ghost s: Shape, ghost q: Shape) returns (status: int, ghost s': Shape)
    requires Tree(s) && s.item == root && Tree(q) && q.item == patch && Nodes(s) !! Nodes(q)
    requires op in {P.ADD, P.REMOVE, P.REPLACE, P.MOVE, P.COPY}
    modifies Nodes(s)
    ensures Tree(s') && s'.item == root && forall n | n in Nodes(s') :: n in Nodes(s) || fresh(n)
    ensures var v, value, from := old(JsonOf(s)), P.Lookup(old(JsonOf(q)), P.VALUE, cs), P.Lookup(old(JsonOf(q)), P.FROM, cs);
            P.Outcome(JsonOf(s'), status) ==
            if op == P.REMOVE then P.RemoveAt(v, path, cs)
            else if op == P.REPLACE then P.ReplaceAt(v, path, value, cs)
            else if op == P.MOVE then P.MoveTo(v, path, from, cs)
            else if op == P.COPY then P.CopyTo(v, path, from, cs)
            else if value.Some? then P.AddAt(v, path, value.value, cs)
            else P.Outcome(v, 7)
  {
    hide Tree, Forest, NodesAll, Nodes, BelowAll, Members, Values, JsonOf, Children, Roots;
    hide P.Lookup, P.AddAt, P.MoveTo, P.CopyTo, P.Detach;
    status, s' := 13, s;
    TreeExists(s);
    TreeExists(q);
    NodesOf(q);
    ghost var t;
    if op == P.REMOVE || op == P.REPLACE {
      var gone;
      gone, s', t := DetachPath(root, path, cs, s);
      if gone == null { return; }
      if op == P.REMOVE { return 0, s'; }
    }
    var value;
    if op == P.MOVE || op == P.COPY {
      status, value, s', t := FetchFrom(root, patch, op == P.MOVE, cs, path, s', q);
    } else {
      status := 7;
      TreeExists(s');
      value, t := FetchValue(patch, cs, q);
    }
    if value == null { return; }
    NewItem(t);
    status, s' := AddToPath(root, path, value, cs, s', t);
  }

  lemma ApplyFirst(v: Json, patches: seq<Json>, cs: bool)
    requires patches != []
    ensures P.ApplyAll(v, patches, cs) ==
            match P.ApplyPatch(v, patches[0], cs) case Outcome(doc, 0) => P.ApplyAll(doc, patches[1..], cs) case other => other
  {
  }

  /** `cJSONUtils_ApplyPatches` and `cJSONUtils_ApplyPatchesCaseSensitive`: the loop along the patches. */
  method ApplyPatches(root: Item, patches: Item, cs: bool, ghost s: Shape, ghost q: Shape) returns (status: int, ghost s': Shape)
    requires Tree(s) && s.item == root && Tree(q) && q.item == patches && Nodes(s) !! Nodes(q)
    requires JsonOf(q).Array? ==> forall p | p in JsonOf(q).items :: Rebuilds(p, cs)
    modifies Nodes(s)
    ensures Tree(s') && s'.item == root && forall n | n in Nodes(s') :: n in Nodes(s) || fresh(n)
    ensures P.ApplyPatches(old(JsonOf(s)), old(JsonOf(q)), cs) == P.Outcome(JsonOf(s'), status)
  {
    hide Tree, Forest, NodesAll, Nodes, BelowAll, Members, Values, JsonOf, Children, Roots, P.ApplyPatch, P.ApplyAll, Rebuilds;
    status, s' := 1, s;
    KindOf(q);
    if patches.kind != ArrayItem { return; }
    NodesOf(q);
    TreeExists(q);
    FirstChild(q);
    ghost var v, ps, i: nat := JsonOf(s), Values(q.children), 0;
    var patch := patches.child;
    assert ps[0..] == ps;
    while patch != null
      invariant i <= |ps| && patch == At(Roots(q.children), i)
      invariant Tree(q) && Values(q.children) == ps
      invariant Tree(s') && s'.item == root && forall n | n in Nodes(s') :: n in Nodes(s) || fresh(n)
      invariant P.ApplyAll(JsonOf(s'), ps[i..], cs) == P.ApplyAll(v, ps, cs)
      decreases |ps| - i
    {
      status, s' := ApplyNext(root, patch, cs, s', q, i);
      if status != 0 { return; }
      NextChild(q, i);
      patch := patch.next;
      i := i + 1;
    }
    status := 0;
    NothingLeft(JsonOf(s'), ps[i..], cs);
  }

  lemma NothingLeft(v: Json, patches: seq<Json>, cs: bool)
    requires patches == []
    ensures P.ApplyAll(v, patches, cs) == P.Outcome(v, 0)
  {
  }

  /** One turn of that loop. */
  method ApplyNext(root: Item, patch: Item, cs: bool, ghost s: Shape, ghost q: Shape, ghost i: nat) returns (status: int, ghost s': Shape)
    requires Tree(s) && s.item == root && Tree(q) && Nodes(s) !! Nodes(q) && i < |q.children| && patch == Roots(q.children)[i]
    requires Rebuilds(Values(q.children)[i], cs)
    modifies Nodes(s)
    ensures Tree(q) && Values(q.children) == old(Values(q.children))
    ensures Tree(s') && s'.item == root && forall n | n in Nodes(s') :: n in Nodes(s) || fresh(n)
    ensures var ps := Values(q.children)[i..]; var all := P.ApplyAll(old(JsonOf(s)), ps, cs);
            if status == 0 then P.ApplyAll(JsonOf(s'), ps[1..], cs) == all else P.Outcome(JsonOf(s'), status) == all
  {
    hide Tree, Forest, NodesAll, Nodes, BelowAll, Members, Values, JsonOf, Children, Roots, P.ApplyPatch, P.ApplyAll, Rebuilds;
    Rooted(q);
    TakeOutNodes(q.children, i);
    TreeExists(q);
    TakeOutValues(q.children, i);
    ChildValue(q, i);
    RootsAndBelow(q.children);
    ApplyFirst(JsonOf(s), Values(q.children)[i..], cs);
    status, s' := ApplyPatch(root, patch, cs, s, q.children[i]);
  }
}

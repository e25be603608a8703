/** `create_patches` on the items themselves: the patches are built as items, and the objects walked along are sorted in place. */
module ItemDiffing {
  import opened Bytes
  import opened Json
  import opened Sorting
  import opened Pointers
  import opened ChildLists
  import opened ItemTrees
  import opened ItemWalks
  import opened ItemEdits
  import opened ItemPatching
  import opened ItemSorting
  import opened ItemComparing
  import Decoding
  import C = Comparing
  import D = Diffing
  import P = Patching

  // ---- building patches ----

  /** `cJSON_CreateArray`, `cJSON_CreateObject` and `cJSON_CreateString` */
  method CreateItem(kind: Kind, text: Str) returns (item: Item, ghost s: Shape)
    ensures fresh(item) && item.next == null && item.prev == null && item.kind == kind && s.item == item && s.children == []
    ensures Tree(s) && Nodes(s) == {item} && Members(s.children) == [] && Values(s.children) == []
    ensures kind == StringItem ==> JsonOf(s) == String(text)
  {
    item := new Item();
    item.kind, item.text := kind, text;
    s := Shape(item, []);
  }

  /** A path and the escaped key below it, put together in a buffer of its own. */
  method FullPath(path: Str, suffix: Str) returns (full: Str)
    ensures full == path + [SLASH] + Encode(suffix)
  {
    hide Encode;
    var length := PointerEncodedLength(suffix);
    var start := path + [SLASH];
    var buf := new byte[|start| + length + 1];
    forall i | 0 <= i < |start| { buf[i] := start[i]; }
    EncodeStringAsPointer(buf, |start|, suffix);
    PathInBuffer(buf[..], start, Encode(suffix));
    full := CString(buf[..]);
  }

  lemma PathInBuffer(buf: seq<byte>, start: Str, key: Str)
    requires |buf| == |start| + |key| + 1 && buf[..|start|] == start && buf[|start|..|start| + |key|] == key && buf[|buf| - 1] == 0
    ensures CString(buf) == start + key
  {
    var end := |start| + |key|;
    var text: seq<byte> := start + key;
    assert buf[..end] == buf[..|start|] + buf[|start|..end] == text;
    Decoding.CStringPrefix(buf, end);
  }

  /** A string member at the end of a new object. */
  method AddString(parent: Item, name: Str, text: Str, ghost p: Shape) returns (ghost p': Shape)
    requires Tree(p) && p.item == parent && parent.kind == ObjectItem
    modifies parent`child, NodesAll(p.children)`next, NodesAll(p.children)`prev
    ensures Tree(p') && p'.item == parent && forall n | n in Nodes(p') :: n in Nodes(p) || fresh(n)
    ensures Members(p'.children) == old(Members(p.children)) + [Member(name, String(text))]
  {
    hide Tree, Forest, NodesAll, Nodes, BelowAll, Members, Values, JsonOf, Roots;
    TreeExists(p);
    var item;
    ghost var t;
    KindOf(p);
    item, t := CreateItem(StringItem, text);
    KindOf(p);
    p' := AddMember(parent, name, item, p, t);
    KindOf(p');
  }

  /** A copy of an item at the end of an object. */
  method AddCopy(parent: Item, name: Str, item: Item, ghost p: Shape, ghost v: Shape) returns (ghost p': Shape)
    requires Tree(p) && p.item == parent && parent.kind == ObjectItem
    requires Tree(v, false) && v.item == item && Nodes(v) !! Nodes(p)
    modifies parent`child, NodesAll(p.children)`next, NodesAll(p.children)`prev
    ensures Tree(p') && p'.item == parent && forall n | n in Nodes(p') :: n in Nodes(p) || fresh(n)
    ensures Members(p'.children) == old(Members(p.children)) + [Member(name, old(JsonOf(v)))]
  {
    hide Tree, Forest, NodesAll, Nodes, BelowAll, Members, Values, JsonOf, Roots;
    TreeExists(p);
    TreeExists(v);
    KindOf(p);
    var copy;
    ghost var t;
    copy, t := Duplicate(item, true, v, false);
    KindOf(p);
    NewItem(t);
    p' := AddMember(parent, name, copy, p, t);
    KindOf(p');
  }

  /** `compose_patch`: a new operation at the end of the patches, with a copy of the value. */
  method ComposePatch(patches: Item, op: Str, path: Str, suffix: Option<Str>, value: Item?, ghost ps: Shape, ghost v: Shape) returns (ghost ps': Shape)
    requires Tree(ps) && ps.item == patches && patches.kind == ArrayItem
    requires value != null ==> Tree(v, false) && v.item == value && Nodes(v) !! Nodes(ps)
    modifies patches`child, NodesAll(ps.children)`next, NodesAll(ps.children)`prev
    ensures Grown(ps, ps')
    ensures Values(ps'.children) == old(Values(ps.children)) + [D.ComposePatch(op, path, suffix, if value == null then None else Some(old(JsonOf(v))))]
  {
    hide Tree, Forest, NodesAll, Nodes, BelowAll, Members, Values, JsonOf, Roots, D.ComposePatch;
    TreeExists(ps);
    KindOf(ps);
    ghost var t;
    var patch;
    TreeExists(v);
    patch, t := NewPatch(op, path, suffix, value, v);
    KindOf(ps);
    NodesOf(ps);
    NewItem(t);
    RootsAndBelow(ps.children);
    AppendChild(patches, patch, ps, t);
    ps' := Shape(patches, ps.children + [t]);
    NodesOf(ps');
    AppendShapes(ps.children, t);
    AppendValues(ps.children, t);
  }

  /** The patches with more operations at the end. */
  twostate predicate Grown(ps: Shape, new ps': Shape)
    reads ps'.item`child, ps'.item`kind, NodesAll(ps'.children)
  {
    Tree(ps') && ps'.item == ps.item && forall n | n in NodesAll(ps'.children) :: n in NodesAll(ps.children) || fresh(n)
  }

  /** One operation. */
  method NewPatch(op: Str, path: Str, suffix: Option<Str>, value: Item?, ghost v: Shape) returns (patch: Item, ghost t: Shape)
    requires value != null ==> Tree(v, false) && v.item == value
    ensures Tree(t) && t.item == patch && patch.next == null && fresh(Nodes(t))
    ensures JsonOf(t) == D.ComposePatch(op, path, suffix, if value == null then None else Some(JsonOf(v)))
  {
    hide Tree, Forest, NodesAll, Nodes, BelowAll, Members, Values, JsonOf, Roots;
    TreeExists(v);
    var full := path;
    if suffix.Some? { full := FullPath(path, suffix.value); }
    patch, t := NewHead(op, full);
    if value != null {
      NodesOf(t);
      NewItem(t);
      t := AddCopy(patch, P.VALUE, value, t, v);
    }
    KindOf(t);
  }

  /** Its first two members. */
  method NewHead(op: Str, path: Str) returns (patch: Item, ghost t: Shape)
    ensures Tree(t) && t.item == patch && patch.next == null && patch.kind == ObjectItem && fresh(Nodes(t))
    ensures Members(t.children) == [Member(P.OP, String(op)), Member(P.PATH, String(path))]
  {
    hide Tree, Forest, NodesAll, Nodes, BelowAll, Members, Values, JsonOf, Roots;
    patch, t := CreateItem(ObjectItem, []);
    NodesOf(t);
    NewItem(t);
    t := AddString(patch, P.OP, op, t);
    NodesOf(t);
    NewItem(t);
    t := AddString(patch, P.PATH, path, t);
  }

  // ---- walking along two trees ----

  /** A list of patches and two trees to compare, which share nothing. */
  ghost predicate Ready(patches: Item, ps: Shape, s: Shape, u: Shape)
    reads ps.item`child, ps.item`kind, NodesAll(ps.children), s.item`child, s.item`kind, NodesAll(s.children), u.item`child, u.item`kind, NodesAll(u.children)
  {
    && Tree(ps) && ps.item == patches && patches.kind == ArrayItem && Tree(s, false) && Tree(u, false)
    && Nodes(ps) !! Nodes(s) && Nodes(ps) !! Nodes(u) && Nodes(s) !! Nodes(u)
  }

  /** `compose_patch` leaves the two trees alone. */
  method ComposeBeside(patches: Item, op: Str, path: Str, suffix: Option<Str>, value: Item?, ghost ps: Shape, ghost s: Shape, ghost u: Shape, ghost v: Shape)
    returns (ghost ps': Shape)
    requires Ready(patches, ps, s, u)
    requires value != null ==> Tree(v, false) && v.item == value && Nodes(v) <= Nodes(u)
    modifies patches`child, NodesAll(ps.children)`next, NodesAll(ps.children)`prev
    ensures Grown(ps, ps') && Ready(patches, ps', s, u)
    ensures Values(ps'.children) == old(Values(ps.children)) + [D.ComposePatch(op, path, suffix, if value == null then None else Some(old(JsonOf(v))))]
    ensures JsonOf(s) == old(JsonOf(s)) && JsonOf(u) == old(JsonOf(u))
  {
    hide Tree, Forest, NodesAll, Nodes, BelowAll, Members, Values, JsonOf, Roots, D.ComposePatch;
    TreeExists(s);
    TreeExists(u);
    NodesOf(ps);
    NodesOf(s);
    NodesOf(u);
    ps' := ComposePatch(patches, op, path, suffix, value, ps, v);
    NodesOf(ps');
  }

  /** The children after one of them has been walked through: the later ones untouched, and all the same but for the order of members. */
  ghost predicate Passed(vs: seq<Json>, ms: seq<Member<Json>>, i: nat, vs': seq<Json>, ms': seq<Member<Json>>) {
    && |vs| == |ms| == |vs'| == |ms'| && i < |vs|
    && vs'[i + 1..] == vs[i + 1..] && ms'[i + 1..] == ms[i + 1..]
    && C.BagItems(vs') == C.BagItems(vs) && C.BagList(ms') == C.BagList(ms)
  }

  lemma PassedAt(vs: seq<Json>, ms: seq<Member<Json>>, i: nat, x: Json)
    requires i < |vs| == |ms| && ms[i].value == vs[i] && C.BagOf(x) == C.BagOf(vs[i])
    ensures Passed(vs, ms, i, vs[i := x], ms[i := Member(ms[i].key, x)])
  {
    hide C.BagOf, C.BagItems, C.BagList;
  }

  /** The patches for two children; the trees around them stay as they are. */
  method PatchAt(patches: Item, path: Str, x: Item, y: Item, cs: bool, ghost ps: Shape, ghost s: Shape, ghost i: nat, ghost u: Shape, ghost j: nat)
    returns (ghost ps': Shape, ghost s': Shape, ghost u': Shape)
    requires Ready(patches, ps, s, u)
    requires i < |s.children| && j < |u.children| && x == Roots(s.children)[i] && y == Roots(u.children)[j]
    modifies patches`child, NodesAll(ps.children)`next, NodesAll(ps.children)`prev
    modifies NodesAll(s.children)`child, NodesAll(s.children)`next, NodesAll(s.children)`prev
    modifies NodesAll(u.children)`child, NodesAll(u.children)`next, NodesAll(u.children)`prev
    ensures Grown(ps, ps') && Kept(s, s') && Kept(u, u') && Ready(patches, ps', s', u')
    ensures Roots(s'.children) == Roots(s.children) && Roots(u'.children) == Roots(u.children)
    ensures Values(ps'.children) == old(Values(ps.children)) + D.CreatePatches(path, old(Values(s.children)[i]), old(Values(u.children)[j]), cs)
    ensures Passed(old(Values(s.children)), old(Members(s.children)), i, Values(s'.children), Members(s'.children))
    ensures Passed(old(Values(u.children)), old(Members(u.children)), j, Values(u'.children), Members(u'.children))
    decreases |Nodes(s)|, 0, 0
  {
    hide Tree, Forest, Linked, NodesAll, Nodes, JsonOf, Values, Members, BelowAll, Roots, Without, Inserted, D.CreatePatches, Beside, Passed, C.BagOf;
    ghost var c, d := s.children[i], u.children[j];
    ghost var vs, ms, ws, ns := Values(s.children), Members(s.children), Values(u.children), Members(u.children);
    ReadyAt(s, i);
    ReadyAt(u, j);
    ApartAt(s, i, d, u);
    ApartAt(u, j, c, s);
    ApartAt(s, i, ps, ps);
    ApartAt(u, j, ps, ps);
    NodesOf(ps);
    ghost var c', d';
    ps', c', d' := CreatePatches(patches, path, x, y, cs, ps, c, d);
    s', u' := Shape(s.item, s.children[i := c']), Shape(u.item, u.children[j := d']);
    NodesOf(c');
    NodesOf(d');
    Restored(s, i, vs, ms, c');
    Restored(u, j, ws, ns, d');
    PassedAt(vs, ms, i, JsonOf(c'));
    PassedAt(ws, ns, j, JsonOf(d'));
    NodesOf(ps');
    NodesOf(s);
    NodesOf(u);
    NodesOf(s');
    NodesOf(u');
  }

  /** `create_patches` */
  method CreatePatches(patches: Item, path: Str, a: Item, b: Item, cs: bool, ghost ps: Shape, ghost s: Shape, ghost u: Shape)
    returns (ghost ps': Shape, ghost s': Shape, ghost u': Shape)
    requires Ready(patches, ps, s, u) && s.item == a && u.item == b
    modifies patches`child, NodesAll(ps.children)`next, NodesAll(ps.children)`prev
    modifies Nodes(s)`child, NodesAll(s.children)`next, NodesAll(s.children)`prev
    modifies Nodes(u)`child, NodesAll(u.children)`next, NodesAll(u.children)`prev
    ensures Grown(ps, ps') && Kept(s, s') && Kept(u, u') && Ready(patches, ps', s', u')
    ensures Values(ps'.children) == old(Values(ps.children)) + D.CreatePatches(path, old(JsonOf(s)), old(JsonOf(u)), cs)
    ensures C.BagOf(JsonOf(s')) == C.BagOf(old(JsonOf(s))) && C.BagOf(JsonOf(u')) == C.BagOf(old(JsonOf(u)))
    decreases |Nodes(s)|, 3
  {
    hide Tree, Forest, Linked, NodesAll, Nodes, JsonOf, Values, Members, BelowAll, Roots, D.CreatePatches, C.BagOf;
    KindOf(s, false);
    KindOf(u, false);
    ScalarOf(s);
    ScalarOf(u);
    NodesOf(s);
    NodesOf(u);
    ps', s', u' := ps, s, u;
    ghost var before := Values(ps.children);
    Unfold(path, JsonOf(s), JsonOf(u), cs);
    if a.kind != b.kind || (a.kind == NumberItem && a.number != b.number) || (a.kind == StringItem && Compare(a.text, b.text) != 0) {
      ps' := ComposeBeside(patches, P.REPLACE, path, None, b, ps, s, u, u);
    } else if a.kind == ArrayItem {
      ps', s', u' := PatchElements(patches, path, a, b, cs, ps, s, u);
    } else if a.kind == ObjectItem {
      ps', s', u' := PatchEntries(patches, path, a, b, cs, ps, s, u);
    } else {
      assert before + [] == before;
    }
  }

  /** The cases of `create_patches` that are decided at once. */
  lemma Unfold(path: Str, a: Json, b: Json, cs: bool)
    ensures var whole := [D.ComposePatch(P.REPLACE, path, None, Some(b))];
            var patches := D.CreatePatches(path, a, b, cs);
            if !SameType(a, b) then patches == whole
            else match a
            case Number(n) => patches == if n == b.n then [] else whole
            case String(t) => patches == if Compare(t, b.s) == 0 then [] else whole
            case Array(items) => patches == D.PatchItems(path, 0, items, b.items, cs)
            case Object(ms) => true
            case _ => patches == []
  {
  }

  /** The three loops over two arrays. */
  method PatchElements(patches: Item, path: Str, a: Item, b: Item, cs: bool, ghost ps: Shape, ghost s: Shape, ghost u: Shape)
    returns (ghost ps': Shape, ghost s': Shape, ghost u': Shape)
    requires Ready(patches, ps, s, u) && s.item == a && u.item == b && a.kind == ArrayItem && b.kind == ArrayItem
    modifies patches`child, NodesAll(ps.children)`next, NodesAll(ps.children)`prev
    modifies Nodes(s)`child, NodesAll(s.children)`next, NodesAll(s.children)`prev
    modifies Nodes(u)`child, NodesAll(u.children)`next, NodesAll(u.children)`prev
    ensures Grown(ps, ps') && Kept(s, s') && Kept(u, u') && Ready(patches, ps', s', u')
    ensures Values(ps'.children) == old(Values(ps.children)) + D.CreatePatches(path, old(JsonOf(s)), old(JsonOf(u)), cs)
    ensures C.BagOf(JsonOf(s')) == C.BagOf(old(JsonOf(s))) && C.BagOf(JsonOf(u')) == C.BagOf(old(JsonOf(u)))
    decreases |Nodes(s)|, 2
  {
    hide Tree, Forest, Linked, NodesAll, Nodes, JsonOf, Values, Members, BelowAll, Roots, C.BagItems, D.PatchItems, D.CreatePatches;
    KindOf(s, false);
    KindOf(u, false);
    Unfold(path, JsonOf(s), JsonOf(u), cs);
    var x, y, index;
    x, y, index, ps', s', u' := PatchPairs(patches, path, a, b, cs, ps, s, u);
    KindOf(s', false);
    KindOf(u', false);
    ps' := PatchRest(patches, path, x, y, index, cs, ps', s', u');
  }

  /** What one array has beyond the other. */
  method PatchRest(patches: Item, path: Str, x: Item?, y: Item?, index: nat, cs: bool, ghost ps: Shape, ghost s: Shape, ghost u: Shape) returns (ghost ps': Shape)
    requires Ready(patches, ps, s, u) && s.item.kind == ArrayItem && u.item.kind == ArrayItem
    requires index <= |s.children| && index <= |u.children| && (x == null || y == null)
    requires x == ChildLists.At(Roots(s.children), index) && y == ChildLists.At(Roots(u.children), index)
    modifies patches`child, NodesAll(ps.children)`next, NodesAll(ps.children)`prev
    ensures Grown(ps, ps') && Ready(patches, ps', s, u) && JsonOf(s) == old(JsonOf(s)) && JsonOf(u) == old(JsonOf(u))
    ensures Values(ps'.children) ==
            old(Values(ps.children)) + D.PatchItems(path, index, old(Values(s.children)[index..]), old(Values(u.children)[index..]), cs)
  {
    hide Tree, Forest, Linked, NodesAll, Nodes, JsonOf, Values, Members, BelowAll, Roots, D.PatchItems;
    ghost var done, vs, ws := Values(ps.children), Values(s.children)[index..], Values(u.children)[index..];
    LeftOver(path, index, vs, ws, cs);
    Regroup(done, D.RemoveItems(path, index, vs), D.AddItems(path, ws));
    KindOf(u, false);
    ps' := RemoveRest(patches, path, x, index, ps, s, u);
    KindOf(u, false);
    ps' := AddRest(patches, path, y, ps', s, u, index);
  }

  lemma LeftOver(path: Str, index: nat, vs: seq<Json>, ws: seq<Json>, cs: bool)
    ensures vs == [] || ws == [] ==> D.PatchItems(path, index, vs, ws, cs) == D.RemoveItems(path, index, vs) + D.AddItems(path, ws)
    ensures vs != [] && ws != [] ==>
              D.PatchItems(path, index, vs, ws, cs) ==
              D.CreatePatches(path + [SLASH] + Decimal(index), vs[0], ws[0], cs) + D.PatchItems(path, index + 1, vs[1..], ws[1..], cs)
  {
    hide D.CreatePatches;
  }

  lemma Regroup<T>(a: seq<T>, b: seq<T>, c: seq<T>)
    ensures (a + b) + c == a + (b + c)
  {
  }

  /** The elements that both arrays have. */
  method PatchPairs(patches: Item, path: Str, a: Item, b: Item, cs: bool, ghost ps: Shape, ghost s: Shape, ghost u: Shape)
    returns (x: Item?, y: Item?, index: nat, ghost ps': Shape, ghost s': Shape, ghost u': Shape)
    requires Ready(patches, ps, s, u) && s.item == a && u.item == b
    modifies patches`child, NodesAll(ps.children)`next, NodesAll(ps.children)`prev
    modifies Nodes(s)`child, NodesAll(s.children)`next, NodesAll(s.children)`prev
    modifies Nodes(u)`child, NodesAll(u.children)`next, NodesAll(u.children)`prev
    ensures Grown(ps, ps') && Kept(s, s') && Kept(u, u') && Ready(patches, ps', s', u')
    ensures index <= |s'.children| && index <= |u'.children| && (x == null || y == null)
    ensures x == ChildLists.At(Roots(s'.children), index) && y == ChildLists.At(Roots(u'.children), index)
    ensures old(Values(ps.children)) + D.PatchItems(path, 0, old(Values(s.children)), old(Values(u.children)), cs) ==
            Values(ps'.children) + D.PatchItems(path, index, Values(s'.children)[index..], Values(u'.children)[index..], cs)
    ensures C.BagItems(Values(s'.children)) == C.BagItems(old(Values(s.children)))
    ensures C.BagItems(Values(u'.children)) == C.BagItems(old(Values(u.children)))
    decreases |Nodes(s)|, 1
  {
    hide Tree, Forest, Linked, NodesAll, Nodes, JsonOf, Values, Members, BelowAll, Roots, C.BagItems, C.BagList, D.PatchItems, D.CreatePatches;
    ps', s', u' := ps, s, u;
    ghost var all := Values(ps.children) + D.PatchItems(path, 0, Values(s.children), Values(u.children), cs);
    assert Values(s.children)[0..] == Values(s.children) && Values(u.children)[0..] == Values(u.children);
    FirstChild(s, false);
    FirstChild(u, false);
    NodesOf(s);
    NodesOf(u);
    x, y, index := a.child, b.child, 0;
    while x != null && y != null
      invariant index <= |s'.children| && index <= |u'.children|
      invariant x == ChildLists.At(Roots(s'.children), index) && y == ChildLists.At(Roots(u'.children), index)
      invariant Grown(ps, ps') && Kept(s, s') && Kept(u, u') && Ready(patches, ps', s', u')
      invariant all == Values(ps'.children) + D.PatchItems(path, index, Values(s'.children)[index..], Values(u'.children)[index..], cs)
      invariant C.BagItems(Values(s'.children)) == C.BagItems(old(Values(s.children)))
      invariant C.BagItems(Values(u'.children)) == C.BagItems(old(Values(u.children)))
      decreases |s'.children| - index
    {
      ghost var vs, ws := Values(s'.children), Values(u'.children);
      ghost var one := D.CreatePatches(path + [SLASH] + Decimal(index), vs[index], ws[index], cs);
      assert vs[index..][1..] == vs[index + 1..] && ws[index..][1..] == ws[index + 1..];
      LeftOver(path, index, vs[index..], ws[index..], cs);
      Regroup(Values(ps'.children), one, D.PatchItems(path, index + 1, vs[index + 1..], ws[index + 1..], cs));
      NodesOf(s');
      NodesOf(u');
      ps', s', u' := PatchAt(patches, path + [SLASH] + Decimal(index), x, y, cs, ps', s', index, u', index);
      NextChild(s', index, false);
      NextChild(u', index, false);
      x, y := x.next, y.next;
      index := index + 1;
    }
  }

  /** The left-over elements of the first array; all are removed at the same index. */
  method RemoveRest(patches: Item, path: Str, x0: Item?, index: nat, ghost ps: Shape, ghost s: Shape, ghost u: Shape) returns (ghost ps': Shape)
    requires Ready(patches, ps, s, u) && s.item.kind == ArrayItem && index <= |s.children| && x0 == ChildLists.At(Roots(s.children), index)
    modifies patches`child, NodesAll(ps.children)`next, NodesAll(ps.children)`prev
    ensures Grown(ps, ps') && Ready(patches, ps', s, u) && JsonOf(s) == old(JsonOf(s)) && JsonOf(u) == old(JsonOf(u))
    ensures Values(ps'.children) == old(Values(ps.children)) + D.RemoveItems(path, index, old(Values(s.children))[index..])
  {
    hide Tree, Forest, Linked, NodesAll, Nodes, JsonOf, Values, Members, BelowAll, Roots, D.RemoveItems, D.ComposePatch, Encode;
    ps' := ps;
    var x := x0;
    KindOf(s, false);
    ghost var vs, i, done := Values(s.children), index, Values(ps.children);
    while x != null
      invariant index <= i <= |s.children| && x == ChildLists.At(Roots(s.children), i)
      invariant Grown(ps, ps') && Ready(patches, ps', s, u)
      invariant JsonOf(s) == old(JsonOf(s)) && JsonOf(u) == old(JsonOf(u))
      invariant done + D.RemoveItems(path, index, vs[index..]) == Values(ps'.children) + D.RemoveItems(path, index, vs[i..])
      decreases |s.children| - i
    {
      RemoveOne(path, index, vs, i);
      Regroup(Values(ps'.children), [D.ComposePatch(P.REMOVE, path, Some(Decimal(index)), None)], D.RemoveItems(path, index, vs[i + 1..]));
      ps' := ComposeBeside(patches, P.REMOVE, path, Some(Decimal(index)), null, ps', s, u, u);
      NextChild(s, i, false);
      x := x.next;
      i := i + 1;
    }
    NoneToRemove(path, index, vs[i..]);
  }

  lemma RemoveOne(path: Str, index: nat, vs: seq<Json>, i: nat)
    requires i < |vs|
    ensures D.RemoveItems(path, index, vs[i..]) == [D.ComposePatch(P.REMOVE, path, Some(Decimal(index)), None)] + D.RemoveItems(path, index, vs[i + 1..])
  {
    assert vs[i..][1..] == vs[i + 1..];
  }

  lemma NoneToRemove(path: Str, index: nat, vs: seq<Json>)
    requires vs == []
    ensures D.RemoveItems(path, index, vs) == [] && D.AddItems(path, vs) == []
  {
  }

  /** The new elements of the second array. */
  method AddRest(patches: Item, path: Str, y0: Item?, ghost ps: Shape, ghost s: Shape, ghost u: Shape, ghost index: nat) returns (ghost ps': Shape)
    requires Ready(patches, ps, s, u) && u.item.kind == ArrayItem && index <= |u.children| && y0 == ChildLists.At(Roots(u.children), index)
    modifies patches`child, NodesAll(ps.children)`next, NodesAll(ps.children)`prev
    ensures Grown(ps, ps') && Ready(patches, ps', s, u) && JsonOf(s) == old(JsonOf(s)) && JsonOf(u) == old(JsonOf(u))
    ensures Values(ps'.children) == old(Values(ps.children)) + D.AddItems(path, old(Values(u.children))[index..])
  {
    hide Tree, Forest, Linked, NodesAll, Nodes, JsonOf, Values, Members, BelowAll, Roots, D.AddItems, D.ComposePatch, Encode;
    ps' := ps;
    var y := y0;
    KindOf(u, false);
    ghost var ws, i, done := Values(u.children), index, Values(ps.children);
    while y != null
      invariant index <= i <= |u.children| && y == ChildLists.At(Roots(u.children), i)
      invariant Grown(ps, ps') && Ready(patches, ps', s, u)
      invariant JsonOf(s) == old(JsonOf(s)) && JsonOf(u) == old(JsonOf(u))
      invariant done + D.AddItems(path, ws[index..]) == Values(ps'.children) + D.AddItems(path, ws[i..])
      decreases |u.children| - i
    {
      AddOne(path, ws, i);
      ReadyChild(u, i, ws);
      Regroup(Values(ps'.children), [D.ComposePatch(P.ADD, path, Some([DASH]), Some(ws[i]))], D.AddItems(path, ws[i + 1..]));
      ps' := ComposeBeside(patches, P.ADD, path, Some([DASH]), y, ps', s, u, u.children[i]);
      NextChild(u, i, false);
      y := y.next;
      i := i + 1;
    }
    NoneToRemove(path, index, ws[i..]);
  }

  lemma AddOne(path: Str, ws: seq<Json>, i: nat)
    requires i < |ws|
    ensures D.AddItems(path, ws[i..]) == [D.ComposePatch(P.ADD, path, Some([DASH]), Some(ws[i]))] + D.AddItems(path, ws[i + 1..])
  {
    assert ws[i..][1..] == ws[i + 1..];
  }

  lemma ReadyChild(u: Shape, i: nat, ws: seq<Json>)
    requires Tree(u, false) && i < |u.children| && JsonOf(u) == Array(ws)
    ensures Tree(u.children[i], false) && u.children[i].item == Roots(u.children)[i] && Nodes(u.children[i]) <= Nodes(u)
    ensures i < |ws| && JsonOf(u.children[i]) == ws[i]
  {
    hide Tree, Forest, Linked, NodesAll, Nodes, JsonOf, Values, Members, BelowAll, Roots;
    KindOf(u, false);
    ReadyAt(u, i);
  }

  /** Both objects are sorted, and walked along as in a merge. */
  method PatchEntries(patches: Item, path: Str, a: Item, b: Item, cs: bool, ghost ps: Shape, ghost s: Shape, ghost u: Shape)
    returns (ghost ps': Shape, ghost s': Shape, ghost u': Shape)
    requires Ready(patches, ps, s, u) && s.item == a && u.item == b && a.kind == ObjectItem && b.kind == ObjectItem
    modifies patches`child, NodesAll(ps.children)`next, NodesAll(ps.children)`prev
    modifies Nodes(s)`child, NodesAll(s.children)`next, NodesAll(s.children)`prev
    modifies Nodes(u)`child, NodesAll(u.children)`next, NodesAll(u.children)`prev
    ensures Grown(ps, ps') && Kept(s, s') && Kept(u, u') && Ready(patches, ps', s', u')
    ensures Values(ps'.children) == old(Values(ps.children)) + D.CreatePatches(path, old(JsonOf(s)), old(JsonOf(u)), cs)
    ensures C.BagOf(JsonOf(s')) == C.BagOf(old(JsonOf(s))) && C.BagOf(JsonOf(u')) == C.BagOf(old(JsonOf(u)))
    decreases |Nodes(s)|, 2
  {
    hide Tree, Forest, Linked, NodesAll, Nodes, JsonOf, Values, Members, BelowAll, Roots, D.CreatePatches, D.PatchMembers, Sort, C.BagMembers, C.BagOf;
    ghost var ms, ns := Members(s.children), Members(u.children);
    SortedPatches(path, ms, ns, cs);
    C.SortedBag(ms, cs);
    C.SortedBag(ns, cs);
    KindOf(s, false);
    KindOf(u, false);
    KindOf(ps);
    NodesOf(s);
    NodesOf(u);
    NodesOf(ps);
    TreeExists(ps);
    s', u' := SortBoth(a, b, cs, s, u);
    KindOf(ps);
    NodesOf(s');
    NodesOf(u');
    ps', s', u' := PatchWalk(patches, path, a, b, cs, Object(ms), ps, s', u');
    SameBags(Members(s'.children), Sort(ms, cs));
    SameBags(Members(u'.children), Sort(ns, cs));
    ObjectBag(ms, Members(s'.children));
    ObjectBag(ns, Members(u'.children));
    AsObject(s');
    AsObject(u');
  }

  lemma SameBags(ms: seq<Member<Json>>, ns: seq<Member<Json>>)
    requires C.BagList(ms) == C.BagList(ns)
    ensures C.BagMembers(ms) == C.BagMembers(ns)
  {
  }

  lemma ObjectBag(ms: seq<Member<Json>>, ns: seq<Member<Json>>)
    requires C.BagMembers(ms) == C.BagMembers(ns)
    ensures C.BagOf(Object(ms)) == C.BagOf(Object(ns))
  {
  }

  lemma SortedPatches(path: Str, ms: seq<Member<Json>>, ns: seq<Member<Json>>, cs: bool)
    ensures forall m | m in Sort(ms, cs) :: m.value < Object(ms)
    ensures D.CreatePatches(path, Object(ms), Object(ns), cs) == D.PatchMembers(path, Object(ms), Sort(ms, cs), Sort(ns, cs), cs)
  {
    hide Sort, D.PatchMembers;
    SortPermutes(ms, cs);
    forall m | m in Sort(ms, cs)
      ensures m.value < Object(ms)
    {
      assert m in multiset(ms);
    }
  }

  /** `sort_object` on two objects. */
  method SortBoth(a: Item, b: Item, cs: bool, ghost s: Shape, ghost u: Shape) returns (ghost s': Shape, ghost u': Shape)
    requires Tree(s, false) && Tree(u, false) && s.item == a && u.item == b && a.kind == ObjectItem && b.kind == ObjectItem
    requires Nodes(s) !! Nodes(u)
    modifies a`child, NodesAll(s.children)`next, NodesAll(s.children)`prev
    modifies b`child, NodesAll(u.children)`next, NodesAll(u.children)`prev
    ensures Kept(s, s') && Kept(u, u')
    ensures Members(s'.children) == Sort(old(Members(s.children)), cs) && Members(u'.children) == Sort(old(Members(u.children)), cs)
  {
    hide Tree, Forest, Linked, NodesAll, Nodes, JsonOf, Values, Members, BelowAll, Roots, Sort;
    KindOf(u, false);
    NodesOf(s);
    NodesOf(u);
    TreeExists(s);
    TreeExists(u);
    RootsAndBelow(s.children);
    RootsAndBelow(u.children);
    s' := SortObject(a, cs, s);
    NodesOf(s');
    KindOf(s', false);
    KindOf(u, false);
    TreeExists(s');
    u' := SortObject(b, cs, u);
    KindOf(s', false);
  }

  /** The walk along two sorted objects. */
  method PatchWalk(patches: Item, path: Str, a: Item, b: Item, cs: bool, ghost top: Json, ghost ps: Shape, ghost s: Shape, ghost u: Shape)
    returns (ghost ps': Shape, ghost s': Shape, ghost u': Shape)
    requires Ready(patches, ps, s, u) && s.item == a && u.item == b && a.kind == ObjectItem && b.kind == ObjectItem
    requires forall m | m in Members(s.children) :: m.value < top
    modifies patches`child, NodesAll(ps.children)`next, NodesAll(ps.children)`prev
    modifies Nodes(s)`child, NodesAll(s.children)`next, NodesAll(s.children)`prev
    modifies Nodes(u)`child, NodesAll(u.children)`next, NodesAll(u.children)`prev
    ensures Grown(ps, ps') && Kept(s, s') && Kept(u, u') && Ready(patches, ps', s', u')
    ensures Values(ps'.children) == old(Values(ps.children)) + D.PatchMembers(path, top, old(Members(s.children)), old(Members(u.children)), cs)
    ensures C.BagList(Members(s'.children)) == C.BagList(old(Members(s.children)))
    ensures C.BagList(Members(u'.children)) == C.BagList(old(Members(u.children)))
    decreases |Nodes(s)|, 1
  {
    hide Tree, Forest, Linked, NodesAll, Nodes, JsonOf, Values, Members, BelowAll, Roots, C.BagList, D.PatchMembers, Pending;
    ps', s', u' := ps, s, u;
    ghost var all, i: nat, j: nat := Values(ps.children) + D.PatchMembers(path, top, Members(s.children), Members(u.children), cs), 0, 0;
    AllPending(path, top, Values(ps.children), Members(s.children), Members(u.children), cs);
    FirstChild(s, false);
    FirstChild(u, false);
    NodesOf(s);
    NodesOf(u);
    var x, y := a.child, b.child;
    while x != null || y != null
      invariant i <= |s'.children| == |s.children| && j <= |u'.children| == |u.children|
      invariant x == ChildLists.At(Roots(s'.children), i) && y == ChildLists.At(Roots(u'.children), j)
      invariant Grown(ps, ps') && Kept(s, s') && Kept(u, u') && Ready(patches, ps', s', u')
      invariant Pending(all, path, top, Values(ps'.children), Members(s'.children), i, Members(u'.children), j, cs)
      invariant C.BagList(Members(s'.children)) == C.BagList(old(Members(s.children)))
      invariant C.BagList(Members(u'.children)) == C.BagList(old(Members(u.children)))
      decreases |s.children| - i + |u.children| - j
    {
      NodesOf(s');
      NodesOf(u');
      var diff;
      diff, ps', s', u' := PatchTurn(patches, path, x, y, cs, all, top, ps', s', i, u', j);
      if diff <= 0 {
        NextChild(s', i, false);
        x := x.next;
        i := i + 1;
      }
      if diff >= 0 {
        NextChild(u', j, false);
        y := y.next;
        j := j + 1;
      }
    }
    NonePending(all, path, top, Values(ps'.children), Members(s'.children), i, Members(u'.children), j, cs);
  }

  /** What has been done so far and what is still to come make up the whole. */
  ghost predicate Pending(all: seq<Json>, path: Str, top: Json, done: seq<Json>, ms: seq<Member<Json>>, i: nat, ns: seq<Member<Json>>, j: nat, cs: bool) {
    && i <= |ms| && j <= |ns| && (forall m | m in ms[i..] :: m.value < top)
    && all == done + D.PatchMembers(path, top, ms[i..], ns[j..], cs)
  }

  /** One turn: a member that both have, one to be removed, or one to be added. */
  method PatchTurn(patches: Item, path: Str, x: Item?, y: Item?, cs: bool, ghost all: seq<Json>, ghost top: Json,
                   ghost ps: Shape, ghost s: Shape, ghost i: nat, ghost u: Shape, ghost j: nat)
    returns (diff: int, ghost ps': Shape, ghost s': Shape, ghost u': Shape)
    requires Ready(patches, ps, s, u) && s.item.kind == ObjectItem && u.item.kind == ObjectItem
    requires x == ChildLists.At(Roots(s.children), i) && y == ChildLists.At(Roots(u.children), j) && (x != null || y != null)
    requires Pending(all, path, top, Values(ps.children), Members(s.children), i, Members(u.children), j, cs)
    modifies patches`child, NodesAll(ps.children)`next, NodesAll(ps.children)`prev
    modifies NodesAll(s.children)`child, NodesAll(s.children)`next, NodesAll(s.children)`prev
    modifies NodesAll(u.children)`child, NodesAll(u.children)`next, NodesAll(u.children)`prev
    ensures Grown(ps, ps') && Kept(s, s') && Kept(u, u') && Ready(patches, ps', s', u')
    ensures Roots(s'.children) == Roots(s.children) && Roots(u'.children) == Roots(u.children)
    ensures (diff <= 0 ==> x != null) && (diff >= 0 ==> y != null)
    ensures Pending(all, path, top, Values(ps'.children),
                    Members(s'.children), if diff <= 0 then i + 1 else i, Members(u'.children), if diff >= 0 then j + 1 else j, cs)
    ensures C.BagList(Members(s'.children)) == C.BagList(old(Members(s.children)))
    ensures C.BagList(Members(u'.children)) == C.BagList(old(Members(u.children)))
    decreases |Nodes(s)|, 0, 2
  {
    hide Tree, Forest, Linked, NodesAll, Nodes, JsonOf, Values, Members, BelowAll, Roots, C.BagList, D.PatchMembers, D.CreatePatches, D.ComposePatch, Encode, CompareStrings, Pending;
    ghost var ms, ns, done := Members(s.children), Members(u.children), Values(ps.children);
    TurnPending(all, path, top, done, ms, i, ns, j, cs);
    NamesAt(s, i);
    NamesAt(u, j);
    ps', s', u' := ps, s, u;
    if x == null {
      diff := 1;
    } else if y == null {
      diff := -1;
    } else {
      diff := CompareStrings(x.key, y.key, cs);
    }
    if diff == 0 {
      ps', s', u' := PatchBoth(patches, path, x, y, cs, ps, s, i, u, j);
      SamePending(all, path, top, Values(ps'.children), ms, i + 1, ns, j + 1, Members(s'.children), Members(u'.children), cs);
    } else if diff < 0 {
      ps' := PatchGone(patches, path, x, ps, s, u);
    } else {
      ps' := PatchNew(patches, path, y, ps, s, u, j);
    }
  }

  lemma NamesAt(s: Shape, i: nat)
    ensures i < |s.children| ==> Members(s.children)[i] == Member(Roots(s.children)[i].key, Values(s.children)[i])
  {
    hide Values, Members, JsonOf;
    if i < |s.children| { EntryValues(s, i); }
  }

  lemma SamePending(all: seq<Json>, path: Str, top: Json, done: seq<Json>, ms: seq<Member<Json>>, i: nat, ns: seq<Member<Json>>, j: nat,
                    ms': seq<Member<Json>>, ns': seq<Member<Json>>, cs: bool)
    requires Pending(all, path, top, done, ms, i, ns, j, cs)
    requires |ms'| == |ms| && ms'[i..] == ms[i..] && |ns'| == |ns| && ns'[j..] == ns[j..]
    ensures Pending(all, path, top, done, ms', i, ns', j, cs)
  {
  }

  /** A name that both objects have: the patches for its values. */
  method PatchBoth(patches: Item, path: Str, x: Item, y: Item, cs: bool, ghost ps: Shape, ghost s: Shape, ghost i: nat, ghost u: Shape, ghost j: nat)
    returns (ghost ps': Shape, ghost s': Shape, ghost u': Shape)
    requires Ready(patches, ps, s, u) && s.item.kind == ObjectItem && u.item.kind == ObjectItem
    requires i < |s.children| && j < |u.children| && x == Roots(s.children)[i] && y == Roots(u.children)[j]
    modifies patches`child, NodesAll(ps.children)`next, NodesAll(ps.children)`prev
    modifies NodesAll(s.children)`child, NodesAll(s.children)`next, NodesAll(s.children)`prev
    modifies NodesAll(u.children)`child, NodesAll(u.children)`next, NodesAll(u.children)`prev
    ensures Grown(ps, ps') && Kept(s, s') && Kept(u, u') && Ready(patches, ps', s', u')
    ensures Roots(s'.children) == Roots(s.children) && Roots(u'.children) == Roots(u.children)
    ensures Values(ps'.children) ==
            old(Values(ps.children)) + D.CreatePatches(path + [SLASH] + Encode(old(x.key)), old(Members(s.children)[i].value), old(Members(u.children)[j].value), cs)
    ensures PassedBy(old(Members(s.children)), i, Members(s'.children))
    ensures PassedBy(old(Members(u.children)), j, Members(u'.children))
    decreases |Nodes(s)|, 0, 1
  {
    hide Tree, Forest, NodesAll, Nodes, JsonOf, Values, Members, BelowAll, Roots, D.CreatePatches, Encode, C.BagList, C.BagItems;
    TreeExists(ps);
    TreeExists(s);
    TreeExists(u);
    AsObject(s);
    AsObject(u);
    KindOf(ps);
    var full := FullPath(path, x.key);
    KindOf(ps);
    AsObject(s);
    AsObject(u);
    EntryValues(s, i);
    EntryValues(u, j);
    ps', s', u' := PatchAt(patches, full, x, y, cs, ps, s, i, u, j);
  }

  ghost predicate PassedBy(ms: seq<Member<Json>>, i: nat, ms': seq<Member<Json>>) {
    i < |ms| == |ms'| && ms'[i + 1..] == ms[i + 1..] && C.BagList(ms') == C.BagList(ms)
  }

  lemma AsObject(s: Shape)
    requires Tree(s, false) && s.item.kind == ObjectItem
    ensures JsonOf(s) == Object(Members(s.children))
  {
    hide Tree, Forest, NodesAll, BelowAll, Members, Values;
  }

  /** A name of the first object only is removed. */
  method PatchGone(patches: Item, path: Str, x: Item, ghost ps: Shape, ghost s: Shape, ghost u: Shape) returns (ghost ps': Shape)
    requires Ready(patches, ps, s, u) && s.item.kind == ObjectItem && u.item.kind == ObjectItem
    modifies patches`child, NodesAll(ps.children)`next, NodesAll(ps.children)`prev
    ensures Grown(ps, ps') && Ready(patches, ps', s, u)
    ensures Members(s.children) == old(Members(s.children)) && Members(u.children) == old(Members(u.children))
    ensures Values(ps'.children) == old(Values(ps.children)) + [D.ComposePatch(P.REMOVE, path, Some(old(x.key)), None)]
  {
    hide Tree, Forest, NodesAll, Nodes, JsonOf, Values, Members, BelowAll, Roots, D.ComposePatch, Encode;
    KindOf(s, false);
    KindOf(u, false);
    ps' := ComposeBeside(patches, P.REMOVE, path, Some(x.key), null, ps, s, u, u);
    KindOf(s, false);
    KindOf(u, false);
  }

  /** A name of the second object only is added. */
  method PatchNew(patches: Item, path: Str, y: Item, ghost ps: Shape, ghost s: Shape, ghost u: Shape, ghost j: nat) returns (ghost ps': Shape)
    requires Ready(patches, ps, s, u) && s.item.kind == ObjectItem && u.item.kind == ObjectItem
    requires j < |u.children| && y == Roots(u.children)[j]
    modifies patches`child, NodesAll(ps.children)`next, NodesAll(ps.children)`prev
    ensures Grown(ps, ps') && Ready(patches, ps', s, u)
    ensures Members(s.children) == old(Members(s.children)) && Members(u.children) == old(Members(u.children))
    ensures Values(ps'.children) == old(Values(ps.children)) + [D.ComposePatch(P.ADD, path, Some(old(y.key)), Some(old(Values(u.children)[j])))]
  {
    hide Tree, Forest, NodesAll, Nodes, JsonOf, Values, Members, BelowAll, Roots, D.ComposePatch, Encode;
    KindOf(s, false);
    KindOf(u, false);
    ReadyAt(u, j);
    ps' := ComposeBeside(patches, P.ADD, path, Some(y.key), y, ps, s, u, u.children[j]);
    KindOf(s, false);
    KindOf(u, false);
  }

  lemma AllPending(path: Str, top: Json, done: seq<Json>, ms: seq<Member<Json>>, ns: seq<Member<Json>>, cs: bool)
    requires forall m | m in ms :: m.value < top
    ensures Pending(done + D.PatchMembers(path, top, ms, ns, cs), path, top, done, ms, 0, ns, 0, cs)
  {
    assert ms[0..] == ms && ns[0..] == ns;
  }

  lemma NonePending(all: seq<Json>, path: Str, top: Json, done: seq<Json>, ms: seq<Member<Json>>, i: nat, ns: seq<Member<Json>>, j: nat, cs: bool)
    requires Pending(all, path, top, done, ms, i, ns, j, cs) && i == |ms| && j == |ns|
    ensures all == done
  {
  }

  /** How the next two names compare; an object that is at its end comes last. */
  function Order(ms: seq<Member<Json>>, i: nat, ns: seq<Member<Json>>, j: nat, cs: bool): int
    requires i <= |ms| && j <= |ns|
  {
    if i == |ms| then 1 else if j == |ns| then -1 else CompareStrings(ms[i].key, ns[j].key, cs)
  }

  /** The patches of the next turn. */
  function Turn(path: Str, ms: seq<Member<Json>>, i: nat, ns: seq<Member<Json>>, j: nat, cs: bool): seq<Json>
    requires i <= |ms| && j <= |ns| && (i < |ms| || j < |ns|)
  {
    var diff := Order(ms, i, ns, j, cs);
    if diff == 0 then D.CreatePatches(path + [SLASH] + Encode(ms[i].key), ms[i].value, ns[j].value, cs)
    else if diff < 0 then [D.ComposePatch(P.REMOVE, path, Some(ms[i].key), None)]
    else if j < |ns| then [D.ComposePatch(P.ADD, path, Some(ns[j].key), Some(ns[j].value))]
    else []
  }

  lemma TurnPending(all: seq<Json>, path: Str, top: Json, done: seq<Json>, ms: seq<Member<Json>>, i: nat, ns: seq<Member<Json>>, j: nat, cs: bool)
    requires Pending(all, path, top, done, ms, i, ns, j, cs) && (i < |ms| || j < |ns|)
    ensures var diff := Order(ms, i, ns, j, cs);
            && (diff <= 0 ==> i < |ms|) && (diff >= 0 ==> j < |ns|)
            && Pending(all, path, top, done + Turn(path, ms, i, ns, j, cs), ms, if diff <= 0 then i + 1 else i, ns, if diff >= 0 then j + 1 else j, cs)
  {
    hide D.CreatePatches, D.ComposePatch, Encode, CompareStrings;
    assert i < |ms| ==> ms[i..][1..] == ms[i + 1..];
    assert j < |ns| ==> ns[j..][1..] == ns[j + 1..];
    var diff := Order(ms, i, ns, j, cs);
    var i', j' := if diff <= 0 then i + 1 else i, if diff >= 0 then j + 1 else j;
    Regroup(done, Turn(path, ms, i, ns, j, cs), D.PatchMembers(path, top, ms[i'..], ns[j'..], cs));
  }
}

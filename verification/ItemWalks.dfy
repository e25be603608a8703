/** Finding items: by name among the members of an object, and by following a JSON pointer. */
module ItemWalks {
  import opened Bytes
  import opened Json
  import Pointers
  import opened Locating
  import opened ChildLists
  import opened ItemTrees
  import opened ItemPaths

  lemma NextChild(s: Shape, i: nat, tails: bool := true)
    requires Tree(s, tails) && i < |s.children|
    ensures Roots(s.children)[i].next == At(Roots(s.children), i + 1)
    ensures Roots(s.children)[i].key == Members(s.children)[i].key
  {
    hide Forest, NodesAll, BelowAll, Members;
    ChildOf(s.children, i, tails);
  }

  lemma FirstChild(s: Shape, tails: bool := true)
    requires Tree(s, tails)
    ensures s.item.child == At(Roots(s.children), 0)
  {
    hide Forest, NodesAll, BelowAll;
  }

  /** The items of a tree are none of those still to be allocated, so that the tree stays as it is. */
  lemma TreeExists(s: Shape)
    ensures forall n {:trigger n in NodesAll(s.children)} | n in NodesAll(s.children) :: allocated(n)
    ensures forall n {:trigger n in Nodes(s)} | n in Nodes(s) :: allocated(n)
    ensures forall n {:trigger n in BelowAll(s.children)} | n in BelowAll(s.children) :: allocated(n)
    ensures forall i {:trigger Roots(s.children)[i]} | 0 <= i < |s.children| :: allocated(Roots(s.children)[i])
  {
    Exist(s);
    ForestExists(s.children);
  }

  /** `get_object_item`: the first member of the name, or NULL. */
  method GetObjectItem(parent: Item, name: Str, cs: bool, ghost s: Shape, ghost tails: bool := true) returns (r: Item?)
    requires Tree(s, tails) && s.item == parent
    ensures r == At(Roots(s.children), FindKey(Members(s.children), name, cs))
  {
    hide Tree, Forest, NodesAll, BelowAll, Members, Roots;
    ghost var ms, i := Members(s.children), 0;
    FirstChild(s, tails);
    r := parent.child;
    while r != null && CompareStrings(name, r.key, cs) != 0
      invariant 0 <= i <= |ms| && r == At(Roots(s.children), i)
      invariant Tree(s, tails) && Members(s.children) == ms
      invariant FindKey(ms, name, cs) == i + FindKey(ms[i..], name, cs)
      decreases |ms| - i
    {
      assert ms[i..][1..] == ms[i + 1..];
      NextChild(s, i, tails);
      r := r.next;
      i := i + 1;
    }
    if i < |ms| { NextChild(s, i, tails); }
  }

  /** The walk along the members of an object for the one that the next token of a pointer names. */
  method GetNamedMember(parent: Item, pointer: Str, cs: bool, ghost s: Shape) returns (r: Item?)
    requires Tree(s) && s.item == parent
    ensures r == At(Roots(s.children), FindToken(Members(s.children), pointer, cs))
  {
    hide Tree, Forest, NodesAll, BelowAll, Members, Roots, Pointers.ComparePointers;
    ghost var ms, i := Members(s.children), 0;
    FirstChild(s);
    r := parent.child;
    while r != null
      invariant 0 <= i <= |ms| && r == At(Roots(s.children), i)
      invariant Tree(s) && Members(s.children) == ms
      invariant FindToken(ms, pointer, cs) == i + FindToken(ms[i..], pointer, cs)
      decreases |ms| - i
    {
      NextChild(s, i);
      TreeExists(s);
      var named := Pointers.NamesToken(r.key, pointer, cs);
      if named { return; }
      assert ms[i..][1..] == ms[i + 1..];
      r := r.next;
      i := i + 1;
    }
  }

  lemma KindOf(s: Shape, tails: bool := true)
    requires Tree(s, tails)
    ensures s.item.kind == ArrayItem ==> JsonOf(s) == Array(Values(s.children))
    ensures s.item.kind == ObjectItem ==> JsonOf(s) == Object(Members(s.children))
    ensures !Container(s.item.kind) ==> !JsonOf(s).Array? && !JsonOf(s).Object? && s.children == []
    ensures JsonOf(s).Array? <==> s.item.kind == ArrayItem
    ensures JsonOf(s).Object? <==> s.item.kind == ObjectItem
    ensures tails ==> Children(s.item, Roots(s.children))
  {
    hide Forest, NodesAll, BelowAll, Members, Values, Children;
  }

  /** One round of the loop: the child that the next token leads to. */
  method StepDown(current: Item, pointer: Str, cs: bool, ghost s: Shape) returns (r: Item?, ghost i: nat)
    requires Tree(s) && s.item == current
    ensures r == null <==> StepInto(JsonOf(s), pointer, cs) == None
    ensures r != null ==> StepInto(JsonOf(s), pointer, cs) == Some(i) && i < |s.children| && s.children[i].item == r
  {
    hide Tree, Forest, NodesAll, BelowAll, Members, Values, JsonOf, Children;
    KindOf(s);
    TreeExists(s);
    r, i := null, 0;
    if current.kind == ArrayItem {
      var index := Pointers.DecodeArrayIndex(pointer);
      if index == None { return; }
      r := GetArrayItem(current, index.value, Roots(s.children));
      i := index.value;
    } else if current.kind == ObjectItem {
      r := GetNamedMember(current, pointer, cs, s);
      i := FindToken(Members(s.children), pointer, cs);
    }
  }

  /** A way down from the node at `pos`, seen from the root. */
  function Beyond(pos: Position, r: Option<Position>): Option<Position> {
    match r
    case None => None
    case Some(p) => Some(pos + p)
  }

  lemma BeyondStep(pos: Position, i: nat, r: Option<Position>)
    ensures Beyond(pos + [i], r) == Beyond(pos, Beyond([i], r))
  {
    if r.Some? {
      assert pos + [i] + r.value == pos + ([i] + r.value);
    }
  }

  lemma {:induction false} PlaceStep(s: Shape, pos: Position, i: nat)
    requires IsPlace(s, pos) && i < |ShapeAt(s, pos).children|
    ensures IsPlace(s, pos + [i]) && ShapeAt(s, pos + [i]) == ShapeAt(s, pos).children[i]
    decreases |pos|
  {
    if pos == [] {
      assert pos + [i] == [i];
      assert [i][1..] == [];
    } else {
      assert (pos + [i])[1..] == pos[1..] + [i];
      PlaceStep(s.children[pos[0]], pos[1..], i);
    }
  }

  lemma LocateNext(v: Json, pointer: Str, cs: bool)
    ensures pointer == [] || pointer[0] != Pointers.SLASH ==> Locate(v, pointer, cs) == Some([])
    ensures pointer != [] && pointer[0] == Pointers.SLASH ==>
              Locate(v, pointer, cs) ==
              match StepInto(v, pointer[1..], cs)
              case None => None
              case Some(i) => Beyond([i], Locate(Child(v, i), Pointers.SkipToken(pointer[1..]), cs))
  {
    hide StepInto;
  }

  /** `get_item_from_pointer`: the item at the position that the pointer leads to, or NULL if there is none. */
  method GetItemFromPointer(root: Item, pointer: Str, cs: bool, ghost s: Shape) returns (r: Item?, ghost pos: Position)
    requires Tree(s) && s.item == root
    ensures r == null <==> Locate(JsonOf(s), pointer, cs) == None
    ensures r != null ==> Locate(JsonOf(s), pointer, cs) == Some(pos) && IsPlace(s, pos) && ShapeAt(s, pos).item == r
  {
    hide Tree, Forest, NodesAll, BelowAll, Members, Values, JsonOf, Children, Locate, StepInto, Pointers.SkipToken;
    var rest := pointer;
    ghost var at, v := s, JsonOf(s);
    r, pos := root, [];
    assert forall p: Position :: [] + p == p;
    while rest != [] && rest[0] == Pointers.SLASH
      invariant Tree(s) && JsonOf(s) == v
      invariant r != null && IsPlace(s, pos) && ShapeAt(s, pos) == at && at.item == r && Tree(at)
      invariant Locate(v, pointer, cs) == Beyond(pos, Locate(JsonOf(at), rest, cs))
      decreases |rest|
    {
      LocateNext(JsonOf(at), rest, cs);
      rest := rest[1..];
      ghost var i;
      TreeExists(s);
      TreeExists(at);
      r, i := StepDown(r, rest, cs, at);
      if r == null { return; }
      ChildValue(at, i);
      BeyondStep(pos, i, Locate(JsonOf(at.children[i]), Pointers.SkipToken(rest), cs));
      PlaceStep(s, pos, i);
      at, pos := at.children[i], pos + [i];
      rest := Pointers.SkipToken(rest);
    }
    LocateNext(JsonOf(at), rest, cs);
    assert pos + [] == pos;
  }
}

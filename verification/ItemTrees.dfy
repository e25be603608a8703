/** Trees of items: a child list at every container, and the value that the whole stands for. */
module ItemTrees {
  import opened Json
  import opened ChildLists

  /** Which items a tree is made of. */
  datatype Shape = Shape(item: Item, children: seq<Shape>)

  function Roots(cs: seq<Shape>): (r: seq<Item>)
    ensures |r| == |cs| && forall i {:trigger r[i]} | 0 <= i < |cs| :: r[i] == cs[i].item
  {
    if cs == [] then [] else [cs[0].item] + Roots(cs[1..])
  }

  function Nodes(s: Shape): set<Item>
    decreases s, 0
  {
    {s.item} + NodesAll(s.children)
  }

  function NodesAll(cs: seq<Shape>): set<Item>
    decreases cs, 1
  {
    if cs == [] then {} else Nodes(cs[0]) + NodesAll(cs[1..])
  }

  /** The items below the roots. */
  function BelowAll(cs: seq<Shape>): set<Item>
  {
    if cs == [] then {} else NodesAll(cs[0].children) + BelowAll(cs[1..])
  }

  lemma {:induction false} RootsAndBelow(cs: seq<Shape>)
    ensures forall i {:trigger Roots(cs)[i]} | 0 <= i < |cs| :: Roots(cs)[i] in NodesAll(cs)
    ensures BelowAll(cs) <= NodesAll(cs)
    decreases cs
  {
    if cs != [] {
      RootsAndBelow(cs[1..]);
      assert forall i | 0 < i < |cs| :: cs[1..][i - 1] == cs[i];
    }
  }

  lemma OneOf(cs: seq<Shape>)
    requires cs != []
    ensures cs[0].item == Roots(cs)[0] && Roots(cs)[1..] == Roots(cs[1..])
    ensures NodesAll(cs[0].children) <= BelowAll(cs) && BelowAll(cs[1..]) <= BelowAll(cs)
  {
  }

  predicate Container(kind: Kind) {
    kind == ArrayItem || kind == ObjectItem
  }

  /** The children of `parent` are the nodes, in order; with `tails`, the head points back to the tail as well. */
  ghost predicate Linked(parent: Item, nodes: seq<Item>, tails: bool)
    reads parent`child, nodes`next, nodes`prev
  {
    if tails then Children(parent, nodes)
    else parent !in nodes && Apart(nodes) && parent.child == At(nodes, 0) && Forward(nodes) && Backward(nodes)
  }

  /** The links at every level are as the shape says, and no item stands in two places. */
  ghost predicate Tree(s: Shape, tails: bool := true)
    reads s.item`child, s.item`kind, NodesAll(s.children)
    decreases s, 0
  {
    RootsAndBelow(s.children);
    && s.item !in NodesAll(s.children)
    && (!Container(s.item.kind) ==> s.children == [])
    && Linked(s.item, Roots(s.children), tails)
    && Forest(s.children, tails)
  }

  /** Trees that share no item. */
  ghost predicate Forest(cs: seq<Shape>, tails: bool := true)
    reads Roots(cs)`child, Roots(cs)`kind, BelowAll(cs)
    decreases cs, 1
  {
    if cs == [] then true
    else
      OneOf(cs);
      Tree(cs[0], tails) && Nodes(cs[0]) !! NodesAll(cs[1..]) && Forest(cs[1..], tails)
  }

  /** The value a tree of items stands for. */
  ghost function JsonOf(s: Shape): Json
    reads s.item`kind, s.item`number, s.item`text, NodesAll(s.children)
    decreases s, 0
  {
    RootsAndBelow(s.children);
    match s.item.kind
    case NullItem => Null
    case FalseItem => False
    case TrueItem => True
    case NumberItem => Number(s.item.number)
    case StringItem => String(s.item.text)
    case ArrayItem => Array(Values(s.children))
    case ObjectItem => Object(Members(s.children))
  }

  ghost function Values(cs: seq<Shape>): (r: seq<Json>)
    reads Roots(cs)`kind, Roots(cs)`number, Roots(cs)`text, BelowAll(cs)
    ensures |r| == |cs|
    decreases cs, 1
  {
    if cs == [] then []
    else
      OneOf(cs);
      [JsonOf(cs[0])] + Values(cs[1..])
  }

  ghost function Members(cs: seq<Shape>): (r: seq<Member<Json>>)
    reads Roots(cs)`kind, Roots(cs)`number, Roots(cs)`text, Roots(cs)`key, BelowAll(cs)
    ensures |r| == |cs|
    decreases cs, 1
  {
    if cs == [] then []
    else
      OneOf(cs);
      [Member(cs[0].item.key, JsonOf(cs[0]))] + Members(cs[1..])
  }

  // ---- a forest with one more tree ----

  lemma {:induction false} AppendShapes(cs: seq<Shape>, t: Shape)
    ensures Roots(cs + [t]) == Roots(cs) + [t.item]
    ensures NodesAll(cs + [t]) == NodesAll(cs) + Nodes(t)
    ensures BelowAll(cs + [t]) == BelowAll(cs) + NodesAll(t.children)
    decreases cs
  {
    if cs != [] {
      assert (cs + [t])[1..] == cs[1..] + [t];
      AppendShapes(cs[1..], t);
    }
  }

  lemma {:induction false} AppendForest(cs: seq<Shape>, t: Shape)
    requires Forest(cs) && Tree(t) && Nodes(t) !! NodesAll(cs)
    ensures Forest(cs + [t])
    decreases cs
  {
    hide Tree;
    if cs == [] {
      assert cs + [t] == [t];
    } else {
      assert (cs + [t])[1..] == cs[1..] + [t];
      AppendForest(cs[1..], t);
      AppendShapes(cs[1..], t);
    }
  }

  lemma {:induction false} AppendValues(cs: seq<Shape>, t: Shape)
    ensures Values(cs + [t]) == Values(cs) + [JsonOf(t)]
    ensures Members(cs + [t]) == Members(cs) + [Member(t.item.key, JsonOf(t))]
    decreases cs
  {
    hide JsonOf;
    if cs == [] {
      assert cs + [t] == [t];
    } else {
      assert (cs + [t])[1..] == cs[1..] + [t];
      AppendValues(cs[1..], t);
    }
  }

  lemma {:induction false} RootsNotBelow(cs: seq<Shape>, tails: bool := true)
    requires Forest(cs, tails)
    ensures forall i {:trigger Roots(cs)[i]} | 0 <= i < |cs| :: Roots(cs)[i] !in BelowAll(cs)
    ensures Apart(Roots(cs))
    decreases cs
  {
    if cs != [] {
      RootsNotBelow(cs[1..], tails);
      RootsAndBelow(cs[1..]);
      OneOf(cs);
      forall i | 0 <= i < |cs|
        ensures Roots(cs)[i] !in BelowAll(cs)
      {
        if i > 0 { assert Roots(cs)[i] == Roots(cs[1..])[i - 1]; }
      }
      forall i, j | 0 <= i < j < |cs|
        ensures Roots(cs)[i] != Roots(cs)[j]
      {
        assert Roots(cs)[j] == Roots(cs[1..])[j - 1];
        if i > 0 { assert Roots(cs)[i] == Roots(cs[1..])[i - 1]; }
      }
    }
  }

  // ---- duplicating ----

  lemma ForestExists(cs: seq<Shape>)
    ensures forall i {:trigger Roots(cs)[i]} | 0 <= i < |cs| :: allocated(Roots(cs)[i])
    ensures forall n {:trigger n in BelowAll(cs)} | n in BelowAll(cs) :: allocated(n)
    ensures forall n {:trigger n in NodesAll(cs)} | n in NodesAll(cs) :: allocated(n)
  {
    AllExist(cs);
    RootsAndBelow(cs);
  }

  /** The items of a tree exist, so that new ones are none of them. */
  lemma {:induction false} Exist(s: Shape)
    ensures forall n {:trigger n in Nodes(s)} | n in Nodes(s) :: allocated(n)
    decreases s, 0
  {
    AllExist(s.children);
  }

  lemma {:induction false} AllExist(cs: seq<Shape>)
    ensures forall n {:trigger n in NodesAll(cs)} | n in NodesAll(cs) :: allocated(n)
    decreases cs, 1
  {
    if cs != [] {
      Exist(cs[0]);
      AllExist(cs[1..]);
    }
  }

  /** `cJSON_New_Item`, and the fields that `cJSON_Duplicate` copies. */
  method CopyFields(item: Item) returns (copy: Item)
    ensures fresh(copy) && copy.next == null && copy.prev == null && copy.child == null
    ensures copy.kind == item.kind && copy.number == item.number && copy.text == item.text && copy.key == item.key
  {
    copy := new Item();
    copy.kind, copy.number, copy.text, copy.key := item.kind, item.number, item.text, item.key;
  }

  /** The copies so far: trees of their own, linked in a row under the new item. */
  ghost predicate Growing(copy: Item, ts: seq<Shape>, last: Item?)
    reads copy`child, Roots(ts)`child, Roots(ts)`kind, Roots(ts)`next, Roots(ts)`prev, BelowAll(ts)
  {
    var roots := Roots(ts);
    && Forest(ts) && copy !in NodesAll(ts)
    && copy.child == At(roots, 0) && Forward(roots) && Backward(roots)
    && last == (if ts == [] then null else roots[|roots| - 1])
  }

  /** One more copy is linked at the end. */
  method LinkCopy(copy: Item, last: Item?, newchild: Item, ghost ts: seq<Shape>, ghost t: Shape)
    requires Growing(copy, ts, last) && Tree(t) && t.item == newchild && newchild.next == null
    requires Nodes(t) !! NodesAll(ts) && copy !in Nodes(t)
    modifies copy`child, newchild`prev, (if last == null then {} else {last})`next
    ensures Growing(copy, ts + [t], newchild)
    ensures Values(ts + [t]) == old(Values(ts) + [JsonOf(t)])
    ensures Members(ts + [t]) == old(Members(ts) + [Member(newchild.key, JsonOf(t))])
  {
    hide Tree, Forest, Nodes, NodesAll, BelowAll, JsonOf, Values, Members, Roots;
    LinkCopyFrame(copy, ts, t, last);
    if last != null {
      last.next := newchild;
      newchild.prev := last;
    } else {
      copy.child := newchild;
    }
    assert Forest(ts);
    assert Tree(t);
    AppendForest(ts, t);
    AppendShapes(ts, t);
    AppendValues(ts, t);
  }

  /** What the new links do not touch. */
  lemma LinkCopyFrame(copy: Item, ts: seq<Shape>, t: Shape, last: Item?)
    requires Growing(copy, ts, last) && Tree(t) && Nodes(t) !! NodesAll(ts) && copy !in Nodes(t)
    ensures forall i {:trigger Roots(ts)[i]} | 0 <= i < |ts| :: Roots(ts)[i] !in BelowAll(ts) && Roots(ts)[i] !in NodesAll(t.children) && Roots(ts)[i] != copy && Roots(ts)[i] != t.item
    ensures t.item !in BelowAll(ts) && t.item !in NodesAll(t.children) && copy !in BelowAll(ts) && copy !in NodesAll(t.children) && copy != t.item
    ensures Apart(Roots(ts))
  {
    hide Forest;
    RootsNotBelow(ts);
    RootsAndBelow(ts);
  }

  lemma {:induction false} ChildOf(cs: seq<Shape>, i: nat, tails: bool := true)
    requires i < |cs| && Forest(cs, tails)
    ensures Tree(cs[i], tails) && Values(cs)[i] == JsonOf(cs[i]) && Members(cs)[i] == Member(cs[i].item.key, JsonOf(cs[i]))
    ensures cs[i].item == Roots(cs)[i]
    decreases cs
  {
    hide Tree, JsonOf;
    if i > 0 { ChildOf(cs[1..], i - 1, tails); }
  }

  /** `cJSON_Duplicate`: new items throughout, a child list at every container, and the same value. */
  method Duplicate(item: Item, recurse: bool, ghost s: Shape, ghost tails: bool := true) returns (copy: Item, ghost t: Shape)
    requires Tree(s, tails) && s.item == item
    ensures Tree(t) && t.item == copy && fresh(Nodes(t))
    ensures copy.next == null && copy.prev == null && copy.key == item.key
    ensures recurse ==> JsonOf(t) == JsonOf(s)
    ensures !recurse ==> t.children == [] && copy.kind == item.kind && copy.number == item.number && copy.text == item.text
    decreases s, 1
  {
    Exist(s);
    AllExist(s.children);
    ghost var nodes := Nodes(s);
    copy := CopyFields(item);
    t := Shape(copy, []);
    if !recurse { return; }
    ghost var ts := DuplicateChildren(item, copy, s, tails);
    t := Shape(copy, ts);
  }

  /** A tree need not have its heads point back to the tails. */
  lemma {:induction false} Loosen(s: Shape)
    requires Tree(s)
    ensures Tree(s, false)
    decreases s, 0
  {
    LoosenAll(s.children);
  }

  lemma {:induction false} LoosenAll(cs: seq<Shape>)
    requires Forest(cs)
    ensures Forest(cs, false)
    decreases cs, 1
  {
    if cs != [] {
      Loosen(cs[0]);
      LoosenAll(cs[1..]);
    }
  }

  lemma Opened(s: Shape, tails: bool := true)
    requires Tree(s, tails)
    ensures var roots := Roots(s.children);
            && s.item.child == At(roots, 0) && Forward(roots) && Forest(s.children, tails)
            && (Container(s.item.kind) || s.children == [])
  {
  }

  lemma NothingGrown(copy: Item)
    requires copy.child == null
    ensures Growing(copy, [], null) && NodesAll([]) == {} && Values([]) == [] && Members([]) == []
  {
  }

  lemma CopyDone(copy: Item, ts: seq<Shape>)
    requires Forest(ts) && copy !in NodesAll(ts) && copy.child == At(Roots(ts), 0)
    requires Forward(Roots(ts)) && Backward(Roots(ts)) && (ts != [] ==> Roots(ts)[0].prev == Roots(ts)[|ts| - 1])
    requires Container(copy.kind) || ts == []
    ensures Tree(Shape(copy, ts))
  {
    RootsNotBelow(ts);
    RootsAndBelow(ts);
  }

  /** One turn of the loop: the next child is duplicated and its copy linked. */
  method DuplicateNext(copy: Item, last: Item?, child: Item, ghost ts: seq<Shape>, ghost source: Shape, ghost tails: bool) returns (newchild: Item, ghost t: Shape)
    requires Tree(source, tails) && source.item == child && Growing(copy, ts, last)
    modifies copy`child, (if last == null then {} else {last})`next
    ensures Growing(copy, ts + [t], newchild)
    ensures fresh(Nodes(t)) && newchild in Nodes(t) && NodesAll(ts + [t]) == NodesAll(ts) + Nodes(t)
    ensures Values(ts + [t]) == old(Values(ts)) + [old(JsonOf(source))]
    ensures Members(ts + [t]) == old(Members(ts)) + [old(Member(child.key, JsonOf(source)))]
    decreases source, 2
  {
    hide Tree, Forest, Values, Members, JsonOf, NodesAll, BelowAll, Forward, Backward;
    Exist(source);
    AllExist(source.children);
    ForestExists(ts);
    newchild, t := Duplicate(child, true, source, tails);
    LinkCopy(copy, last, newchild, ts, t);
    AppendShapes(ts, t);
  }

  lemma NextOf(s: Shape, i: nat, tails: bool)
    requires i < |s.children| && Tree(s, tails)
    ensures Roots(s.children)[i].next == At(Roots(s.children), i + 1)
    ensures s.children[i].item == Roots(s.children)[i] && Tree(s.children[i], tails)
    ensures Values(s.children)[i] == JsonOf(s.children[i])
    ensures Members(s.children)[i] == Member(s.children[i].item.key, JsonOf(s.children[i]))
  {
    hide Forest, Values, Members, NodesAll, BelowAll;
    ChildOf(s.children, i, tails);
  }

  /** The source exists, and none of its items is the new one. */
  lemma SourceExists(s: Shape, copy: Item)
    requires copy !in Nodes(s)
    ensures forall n {:trigger n in NodesAll(s.children)} | n in NodesAll(s.children) :: allocated(n) && n != copy
    ensures forall i {:trigger Roots(s.children)[i]} | 0 <= i < |s.children| ::
              allocated(Roots(s.children)[i]) && Roots(s.children)[i] != copy
    ensures forall n {:trigger n in BelowAll(s.children)} | n in BelowAll(s.children) :: allocated(n) && n != copy
    ensures s.item != copy
  {
    ForestExists(s.children);
    RootsAndBelow(s.children);
  }

  /** The loop over the children, and the link from the first copy back to the last. */
  method DuplicateChildren(item: Item, copy: Item, ghost s: Shape, ghost tails: bool) returns (ghost ts: seq<Shape>)
    requires Tree(s, tails) && s.item == item
    requires copy !in Nodes(s) && copy.child == null && copy.kind == item.kind
    modifies copy`child
    ensures Tree(Shape(copy, ts)) && fresh(NodesAll(ts))
    ensures Values(ts) == Values(s.children) && Members(ts) == Members(s.children)
    decreases s, 0
  {
    hide Tree, Forest, Values, Members, JsonOf, Growing, NodesAll, Nodes, BelowAll, Forward, Roots, Container;
    ghost var cs, vs, ms := s.children, Values(s.children), Members(s.children);
    SourceExists(s, copy);
    Opened(s, tails);
    var child: Item?, last: Item? := item.child, null;
    ghost var i: nat := 0;
    ts := [];
    NothingGrown(copy);
    while child != null
      invariant i == |ts| <= |cs| && child == At(Roots(cs), i)
      invariant Tree(s, tails) && Values(cs) == vs && Members(cs) == ms
      invariant Growing(copy, ts, last) && fresh(NodesAll(ts)) && (last != null ==> last in NodesAll(ts))
      invariant Values(ts) == vs[..i] && Members(ts) == ms[..i]
      decreases |cs| - i
    {
      NextOf(s, i, tails);
      ghost var t;
      last, t := DuplicateNext(copy, last, child, ts, cs[i], tails);
      ts := ts + [t];
      child := child.next;
      i := i + 1;
    }
    HeadOf(copy, ts, last);
    Finish(copy, last, ts);
  }

  lemma HeadOf(copy: Item, ts: seq<Shape>, last: Item?)
    requires Growing(copy, ts, last)
    ensures copy.child != null ==> copy.child in NodesAll(ts)
  {
    RootsAndBelow(ts);
  }

  /** The head points back to the tail. */
  method Finish(copy: Item, last: Item?, ghost ts: seq<Shape>)
    requires Growing(copy, ts, last) && (Container(copy.kind) || ts == [])
    modifies (if copy.child == null then {} else {copy.child})`prev
    ensures Tree(Shape(copy, ts))
    ensures Values(ts) == old(Values(ts)) && Members(ts) == old(Members(ts))
  {
    RootsNotBelow(ts);
    RootsAndBelow(ts);
    if copy.child != null {
      copy.child.prev := last;
    }
    CopyDone(copy, ts);
  }
}

/** Places in a tree of items, and what becomes of the tree when one of its subtrees changes. */
module ItemPaths {
  import opened Json
  import opened Locating
  import opened ChildLists
  import opened ItemTrees

  // ---- forests as lists ----

  lemma {:induction false} Concat(a: seq<Shape>, b: seq<Shape>)
    ensures Roots(a + b) == Roots(a) + Roots(b)
    ensures NodesAll(a + b) == NodesAll(a) + NodesAll(b)
    ensures BelowAll(a + b) == BelowAll(a) + BelowAll(b)
    decreases a
  {
    hide Nodes;
    if a == [] {
      assert a + b == b;
    } else {
      assert (a + b)[1..] == a[1..] + b;
      Concat(a[1..], b);
    }
  }

  lemma {:induction false} ConcatForest(a: seq<Shape>, b: seq<Shape>, tails: bool := true)
    ensures Forest(a + b, tails) <==> Forest(a, tails) && Forest(b, tails) && NodesAll(a) !! NodesAll(b)
    decreases a
  {
    hide Nodes, Tree;
    if a == [] {
      assert a + b == b;
    } else {
      assert (a + b)[1..] == a[1..] + b;
      ConcatForest(a[1..], b, tails);
      Concat(a[1..], b);
    }
  }

  lemma {:induction false} ConcatValues(a: seq<Shape>, b: seq<Shape>)
    ensures Values(a + b) == Values(a) + Values(b)
    ensures Members(a + b) == Members(a) + Members(b)
    decreases a
  {
    hide JsonOf;
    if a == [] {
      assert a + b == b;
    } else {
      assert (a + b)[1..] == a[1..] + b;
      ConcatValues(a[1..], b);
    }
  }

  lemma One(t: Shape, tails: bool := true)
    ensures Roots([t]) == [t.item] && NodesAll([t]) == Nodes(t)
    ensures Forest([t], tails) <==> Tree(t, tails)
    ensures Values([t]) == [JsonOf(t)] && Members([t]) == [Member(t.item.key, JsonOf(t))]
  {
    hide Nodes, Tree, JsonOf;
  }

  lemma MiddleOut<T>(a: seq<T>, x: T, b: seq<T>)
    ensures Without(a + ([x] + b), |a|) == a + b && (a + ([x] + b))[|a|] == x
  {
  }

  lemma Cut<T>(s: seq<T>, i: nat)
    requires i < |s|
    ensures s == s[..i] + ([s[i]] + s[i + 1..])
  {
  }

  lemma MiddleIn<T>(a: seq<T>, x: T, b: seq<T>)
    ensures Inserted(a + b, |a|, x) == a + ([x] + b)
  {
  }

  /** A tree between the trees of two forests. */
  lemma MiddleNodes(a: seq<Shape>, t: Shape, b: seq<Shape>)
    ensures var cs := a + ([t] + b); Roots(cs) == Roots(a) + ([t.item] + Roots(b)) && NodesAll(cs) == NodesAll(a + b) + Nodes(t)
    ensures Roots(a + b) == Roots(a) + Roots(b) && NodesAll(a + b) == NodesAll(a) + NodesAll(b)
  {
    hide Nodes, NodesAll, JsonOf, Values, Members, Roots;
    One(t);
    Concat([t], b);
    Concat(a, [t] + b);
    Concat(a, b);
  }

  lemma MiddleForest(a: seq<Shape>, t: Shape, b: seq<Shape>, tails: bool := true)
    ensures Forest(a + ([t] + b), tails) <==> Tree(t, tails) && Forest(a + b, tails) && Nodes(t) !! NodesAll(a + b)
  {
    hide Nodes, NodesAll, Tree, Forest, JsonOf, Values, Members, Roots;
    MiddleNodes(a, t, b);
    One(t, tails);
    ConcatForest([t], b, tails);
    ConcatForest(a, [t] + b, tails);
    ConcatForest(a, b, tails);
    Concat([t], b);
  }

  lemma MiddleValues(a: seq<Shape>, t: Shape, b: seq<Shape>)
    ensures Values(a + ([t] + b)) == Values(a) + ([JsonOf(t)] + Values(b)) && Values(a + b) == Values(a) + Values(b)
    ensures Members(a + ([t] + b)) == Members(a) + ([Member(t.item.key, JsonOf(t))] + Members(b))
    ensures Members(a + b) == Members(a) + Members(b)
  {
    hide JsonOf, Values, Members;
    One(t);
    ConcatValues([t], b);
    ConcatValues(a, [t] + b);
    ConcatValues(a, b);
  }

  lemma TakeOutNodes(cs: seq<Shape>, i: nat)
    requires i < |cs|
    ensures NodesAll(cs) == Nodes(cs[i]) + NodesAll(Without(cs, i))
    ensures Roots(Without(cs, i)) == Without(Roots(cs), i) && Roots(cs)[i] == cs[i].item
  {
    hide Nodes, NodesAll, Roots, Without;
    var a, b, t := cs[..i], cs[i + 1..], cs[i];
    Cut(cs, i);
    MiddleOut(a, t, b);
    MiddleNodes(a, t, b);
    MiddleOut(Roots(a), t.item, Roots(b));
  }

  /** What is left of a forest when the tree at an index has gone. */
  lemma TakeOut(cs: seq<Shape>, i: nat, tails: bool := true)
    requires Forest(cs, tails) && i < |cs|
    ensures Tree(cs[i], tails) && Forest(Without(cs, i), tails) && Nodes(cs[i]) !! NodesAll(Without(cs, i))
  {
    hide Nodes, NodesAll, Tree, Forest, Roots, Without;
    var a, b, t := cs[..i], cs[i + 1..], cs[i];
    Cut(cs, i);
    MiddleOut(a, t, b);
    MiddleForest(a, t, b, tails);
  }

  lemma TakeOutValues(cs: seq<Shape>, i: nat)
    requires i < |cs|
    ensures Values(Without(cs, i)) == Without(Values(cs), i) && Values(cs)[i] == JsonOf(cs[i])
  {
    hide JsonOf, Values, Members, Without;
    var a, b, t := cs[..i], cs[i + 1..], cs[i];
    Cut(cs, i);
    MiddleOut(a, t, b);
    MiddleValues(a, t, b);
    MiddleOut(Values(a), JsonOf(t), Values(b));
  }

  lemma TakeOutMembers(cs: seq<Shape>, i: nat)
    requires i < |cs|
    ensures Members(Without(cs, i)) == Without(Members(cs), i) && Members(cs)[i] == Member(cs[i].item.key, JsonOf(cs[i]))
  {
    hide JsonOf, Values, Members, Without;
    var a, b, t := cs[..i], cs[i + 1..], cs[i];
    Cut(cs, i);
    MiddleOut(a, t, b);
    MiddleValues(a, t, b);
    MiddleOut(Members(a), Member(t.item.key, JsonOf(t)), Members(b));
  }

  /** A forest with one more tree at an index. */
  lemma PutIn(cs: seq<Shape>, i: nat, t: Shape, tails: bool := true)
    requires Forest(cs, tails) && Tree(t, tails) && Nodes(t) !! NodesAll(cs) && i <= |cs|
    ensures Forest(Inserted(cs, i, t), tails)
  {
    hide Nodes, NodesAll, Tree, Forest, Inserted;
    var a, b := cs[..i], cs[i..];
    assert cs == a + b;
    MiddleIn(a, t, b);
    MiddleForest(a, t, b, tails);
  }

  lemma PutInNodes(cs: seq<Shape>, i: nat, t: Shape)
    requires i <= |cs|
    ensures NodesAll(Inserted(cs, i, t)) == NodesAll(cs) + Nodes(t)
    ensures Roots(Inserted(cs, i, t)) == Inserted(Roots(cs), i, t.item)
  {
    hide Nodes, NodesAll, Roots, Inserted;
    var a, b := cs[..i], cs[i..];
    assert cs == a + b;
    MiddleIn(a, t, b);
    MiddleNodes(a, t, b);
    MiddleIn(Roots(a), t.item, Roots(b));
  }

  lemma PutInValues(cs: seq<Shape>, i: nat, t: Shape)
    requires i <= |cs|
    ensures Values(Inserted(cs, i, t)) == Inserted(Values(cs), i, JsonOf(t))
    ensures Members(Inserted(cs, i, t)) == Inserted(Members(cs), i, Member(t.item.key, JsonOf(t)))
  {
    hide JsonOf, Values, Members, Inserted;
    var a, b := cs[..i], cs[i..];
    assert cs == a + b;
    MiddleIn(a, t, b);
    MiddleValues(a, t, b);
    MiddleIn(Values(a), JsonOf(t), Values(b));
    MiddleIn(Members(a), Member(t.item.key, JsonOf(t)), Members(b));
  }

  // ---- places ----

  predicate IsPlace(s: Shape, pos: Position)
    decreases |pos|
  {
    pos == [] || (pos[0] < |s.children| && IsPlace(s.children[pos[0]], pos[1..]))
  }

  function ShapeAt(s: Shape, pos: Position): Shape
    requires IsPlace(s, pos)
    decreases |pos|
  {
    if pos == [] then s else ShapeAt(s.children[pos[0]], pos[1..])
  }

  function PutShape(s: Shape, pos: Position, x: Shape): Shape
    requires IsPlace(s, pos)
    decreases |pos|
  {
    if pos == [] then x
    else Shape(s.item, s.children[pos[0] := PutShape(s.children[pos[0]], pos[1..], x)])
  }

  /** The children of the value are the values of the children. */
  lemma ChildValue(s: Shape, i: nat, tails: bool := true)
    requires Tree(s, tails)
    ensures ChildCount(JsonOf(s)) == |s.children|
    ensures i < |s.children| ==> Child(JsonOf(s), i) == JsonOf(s.children[i]) && Tree(s.children[i], tails)
    ensures i < |s.children| ==> Nodes(s.children[i]) <= NodesAll(s.children)
  {
    hide Tree;
    Opened(s, tails);
    if i < |s.children| {
      TakeOut(s.children, i, tails);
      TakeOutNodes(s.children, i);
      TakeOutValues(s.children, i);
      TakeOutMembers(s.children, i);
    }
  }

  /** A place in the tree is a position of the value, and the subtree there stands for what is there. */
  lemma {:induction false} PlaceValue(s: Shape, pos: Position)
    requires Tree(s)
    ensures IsPlace(s, pos) <==> IsPosition(JsonOf(s), pos)
    ensures IsPlace(s, pos) ==>
              var p := ShapeAt(s, pos);
              Tree(p) && JsonOf(p) == NodeAt(JsonOf(s), pos) && Nodes(p) <= Nodes(s) && (pos != [] ==> Nodes(p) <= NodesAll(s.children))
    decreases |pos|
  {
    hide Tree, JsonOf;
    if pos != [] {
      ChildValue(s, pos[0]);
      if pos[0] < |s.children| { PlaceValue(s.children[pos[0]], pos[1..]); }
    }
  }

  // ---- a tree with a hole ----

  /** The items outside the subtree at a place. */
  function Outside(s: Shape, pos: Position): set<Item>
    requires IsPlace(s, pos)
    decreases |pos|
  {
    if pos == [] then {}
    else {s.item} + NodesAll(Without(s.children, pos[0])) + Outside(s.children[pos[0]], pos[1..])
  }

  lemma RootsOutside(s: Shape, pos: Position)
    requires IsPlace(s, pos) && pos != []
    ensures forall i {:trigger Roots(s.children)[i]} | 0 <= i < |s.children| ::
              Roots(s.children)[i] in Outside(s, pos) || Roots(s.children)[i] == ShapeAt(s, pos).item
  {
    hide Nodes, NodesAll, Roots;
    var i, rest := pos[0], Without(s.children, pos[0]);
    RootsAndBelow(rest);
    forall j | 0 <= j < |s.children|
      ensures Roots(s.children)[j] in Outside(s, pos) || Roots(s.children)[j] == ShapeAt(s, pos).item
    {
      if j != i {
        var k := if j < i then j else j - 1;
        assert rest[k] == s.children[j] && Roots(rest)[k] in NodesAll(rest);
      }
    }
  }

  /** All is well linked around the place. */
  ghost predicate Around(s: Shape, pos: Position)
    requires IsPlace(s, pos)
    reads Outside(s, pos), ShapeAt(s, pos).item`next, ShapeAt(s, pos).item`prev
    decreases |pos|
  {
    if pos == [] then true
    else
      var c, rest := s.children[pos[0]], Without(s.children, pos[0]);
      RootsOutside(s, pos);
      RootsAndBelow(rest);
      && Container(s.item.kind) && s.item !in NodesAll(rest) && s.item !in Nodes(c)
      && Children(s.item, Roots(s.children))
      && Forest(rest) && Nodes(c) !! NodesAll(rest) && Around(c, pos[1..])
  }

  /** The value of the tree when the subtree at the place stands for `v`. */
  ghost function Filled(s: Shape, pos: Position, v: Json): Json
    requires IsPlace(s, pos)
    reads Outside(s, pos), ShapeAt(s, pos).item`key
    decreases |pos|
  {
    if pos == [] then v
    else
      var c, rest := s.children[pos[0]], Without(s.children, pos[0]);
      RootsOutside(s, pos);
      RootsAndBelow(rest);
      var x := Filled(c, pos[1..], v);
      if s.item.kind == ArrayItem then Array(Inserted(Values(rest), pos[0], x))
      else Object(Inserted(Members(rest), pos[0], Member(c.item.key, x)))
  }

  lemma {:induction false} OutsideOf(s: Shape, pos: Position)
    requires Tree(s) && IsPlace(s, pos)
    ensures Outside(s, pos) !! Nodes(ShapeAt(s, pos)) && Nodes(s) == Outside(s, pos) + Nodes(ShapeAt(s, pos))
    decreases |pos|
  {
    hide NodesAll, Tree, Forest;
    if pos != [] {
      Opened(s);
      Rooted(s);
      TakeOut(s.children, pos[0]);
      TakeOutNodes(s.children, pos[0]);
      OutsideOf(s.children[pos[0]], pos[1..]);
    }
  }

  lemma Rooted(s: Shape, tails: bool := true)
    requires Tree(s, tails)
    ensures s.item !in NodesAll(s.children) && Nodes(s) == {s.item} + NodesAll(s.children)
    ensures tails ==> Children(s.item, Roots(s.children))
    ensures Forward(Roots(s.children)) && Backward(Roots(s.children))
    ensures Linked(s.item, Roots(s.children), tails) && Forest(s.children, tails) && (Container(s.item.kind) || s.children == [])
  {
    hide NodesAll, Forest;
  }

  /** A hole can be made anywhere. */
  lemma {:induction false} OpenHole(s: Shape, pos: Position)
    requires Tree(s) && IsPlace(s, pos)
    ensures Around(s, pos)
    decreases |pos|
  {
    hide NodesAll, Nodes, Tree, Forest, Children;
    if pos != [] {
      Rooted(s);
      TakeOut(s.children, pos[0]);
      TakeOutNodes(s.children, pos[0]);
      OpenHole(s.children[pos[0]], pos[1..]);
    }
  }

  lemma {:induction false} FillHole(s: Shape, pos: Position, v: Json)
    requires Tree(s) && IsPlace(s, pos)
    ensures IsPosition(JsonOf(s), pos) && Filled(s, pos, v) == PutAt(JsonOf(s), pos, v)
    decreases |pos|
  {
    hide NodesAll, Nodes, Tree, Forest, Values, Members;
    if pos != [] {
      var i := pos[0];
      Rooted(s);
      ChildValue(s, i);
      TakeOutValues(s.children, i);
      TakeOutMembers(s.children, i);
      FillHole(s.children[i], pos[1..], v);
      var x := Filled(s.children[i], pos[1..], v);
      Exchanged(Values(s.children), i, x);
      Exchanged(Members(s.children), i, Member(s.children[i].item.key, x));
    }
  }

  lemma Exchanged<T>(s: seq<T>, i: nat, x: T)
    requires i < |s|
    ensures s[i := x] == Inserted(Without(s, i), i, x)
  {
  }

  lemma {:induction false} OutsideWithin(s: Shape, pos: Position)
    requires IsPlace(s, pos)
    ensures Outside(s, pos) <= Nodes(s)
    decreases |pos|
  {
    hide NodesAll;
    if pos != [] {
      TakeOutNodes(s.children, pos[0]);
      OutsideWithin(s.children[pos[0]], pos[1..]);
    }
  }

  lemma MakeTree(s: Shape, tails: bool := true)
    requires s.item !in NodesAll(s.children) && (Container(s.item.kind) || s.children == [])
    requires Linked(s.item, Roots(s.children), tails) || Children(s.item, Roots(s.children))
    requires Forest(s.children, tails)
    ensures Tree(s, tails)
  {
    hide NodesAll, Forest;
  }

  /** Closing the hole with a tree that has the same root gives a tree. */
  lemma {:induction false} CloseHole(s: Shape, pos: Position, x: Shape, tails: bool := true)
    requires IsPlace(s, pos) && Around(s, pos) && Tree(x, tails) && x.item == ShapeAt(s, pos).item
    requires Nodes(x) !! Outside(s, pos)
    ensures Tree(PutShape(s, pos, x), tails) && PutShape(s, pos, x).item == s.item
    ensures Nodes(PutShape(s, pos, x)) == Outside(s, pos) + Nodes(x)
    decreases |pos|
  {
    hide NodesAll, Tree, Forest, Children;
    if pos != [] {
      var i, c, rest := pos[0], s.children[pos[0]], Without(s.children, pos[0]);
      CloseHole(c, pos[1..], x, tails);
      if !tails { LoosenAll(rest); }
      OutsideWithin(c, pos[1..]);
      var y := PutShape(c, pos[1..], x);
      Exchanged(s.children, i, y);
      Exchanged(Roots(s.children), i, c.item);
      TakeOutNodes(s.children, i);
      PutIn(rest, i, y, tails);
      PutInNodes(rest, i, y);
      assert Roots(s.children)[i := c.item] == Roots(s.children);
      MakeTree(PutShape(s, pos, x), tails);
    }
  }

  lemma {:induction false} ClosedValue(s: Shape, pos: Position, x: Shape)
    requires IsPlace(s, pos) && Around(s, pos) && x.item == ShapeAt(s, pos).item
    ensures JsonOf(PutShape(s, pos, x)) == Filled(s, pos, JsonOf(x))
    decreases |pos|
  {
    hide NodesAll, Nodes, Tree, Forest, Values, Members;
    if pos != [] {
      var i, c, rest := pos[0], s.children[pos[0]], Without(s.children, pos[0]);
      ClosedValue(c, pos[1..], x);
      var y := PutShape(c, pos[1..], x);
      Exchanged(s.children, i, y);
      PutInValues(rest, i, y);
    }
  }
}

/** The children of an item: a doubly linked list whose head points back to its tail. */
module ChildLists {
  import opened Bytes
  import opened Json

  /** The `type` field. */
  datatype Kind = NullItem | FalseItem | TrueItem | NumberItem | StringItem | ArrayItem | ObjectItem

  class Item {
    var next: Item?
    var prev: Item?
    var child: Item?
    var kind: Kind
    /** `valueint` */
    var number: int32
    /** `valuestring` */
    var text: Str
    /** `string`: the name, in an object. */
    var key: Str

    constructor ()
      ensures next == null && prev == null && child == null
    {
      next, prev, child := null, null, null;
      kind, number, text, key := NullItem, 0, [], [];
    }
  }

  // ---- lists ----

  ghost predicate Apart(nodes: seq<Item>) {
    forall i, j | 0 <= i < j < |nodes| :: nodes[i] != nodes[j]
  }

  /** The item at an index, or NULL past the end. */
  function At(nodes: seq<Item>, i: nat): Item? {
    if i < |nodes| then nodes[i] else null
  }

  /** Following `next` visits the nodes in order and ends in NULL. */
  ghost predicate Forward(nodes: seq<Item>)
    reads nodes`next
  {
    forall i {:trigger nodes[i].next} | 0 <= i < |nodes| :: nodes[i].next == At(nodes, i + 1)
  }

  /** Every node but the first points back to the one before it. */
  ghost predicate Backward(nodes: seq<Item>)
    reads nodes`prev
  {
    forall i {:trigger nodes[i].prev} | 0 < i < |nodes| :: nodes[i].prev == nodes[i - 1]
  }

  /** The children of `parent` are the nodes, in order. */
  ghost predicate Children(parent: Item, nodes: seq<Item>)
    reads parent`child, nodes`next, nodes`prev
  {
    && parent !in nodes && Apart(nodes)
    && parent.child == At(nodes, 0)
    && Forward(nodes) && Backward(nodes)
    && (nodes != [] ==> nodes[0].prev == nodes[|nodes| - 1])
  }

  /** A list that ends in NULL is finite: no node comes up twice on the way. */
  lemma ForwardApart(nodes: seq<Item>)
    requires Forward(nodes)
    ensures Apart(nodes)
  {
    forall i, j | 0 <= i < j < |nodes|
      ensures nodes[i] != nodes[j]
    {
      if nodes[i] == nodes[j] { SameSuffix(nodes, i, j); }
    }
  }

  lemma {:induction false} SameSuffix(nodes: seq<Item>, i: nat, j: nat)
    requires Forward(nodes) && i < j < |nodes| && nodes[i] == nodes[j]
    ensures false
    decreases |nodes| - j
  {
    assert nodes[i].next == At(nodes, i + 1);
    if j + 1 < |nodes| { SameSuffix(nodes, i + 1, j + 1); }
  }

  // ---- editing ----

  /** `get_array_item` */
  method GetArrayItem(parent: Item, index: nat, ghost nodes: seq<Item>) returns (r: Item?)
    requires Children(parent, nodes)
    ensures r == At(nodes, index)
  {
    r := parent.child;
    var left := index;
    ghost var i: nat := 0;
    while r != null && left > 0
      invariant 0 <= left && i <= |nodes| && r == At(nodes, i) && left + i == index
      decreases |nodes| - i
    {
      assert nodes[i].next == At(nodes, i + 1);
      left := left - 1;
      r := r.next;
      i := i + 1;
    }
    assert r == null ==> i == |nodes|;
  }

  /** `add_item_to_array`: an unlinked item becomes the last child. */
  method AddItemToArray(parent: Item, item: Item, ghost nodes: seq<Item>) returns (ok: bool)
    requires Children(parent, nodes) && item !in nodes && item.next == null
    modifies parent`child, item`prev, item`next, nodes`next, nodes`prev
    ensures ok <==> parent != item
    ensures Children(parent, if ok then nodes + [item] else nodes)
  {
    if parent == item { return false; }
    var child := parent.child;
    if child == null {
      parent.child := item;
      item.prev := item;
      item.next := null;
    } else {
      var tail := child.prev;
      tail.next := item;
      item.prev := tail;
      parent.child.prev := item;
    }
    ok := true;
  }

  lemma ApartWithout(nodes: seq<Item>, i: nat)
    requires Apart(nodes) && i < |nodes|
    ensures Apart(Without(nodes, i)) && nodes[i] !in Without(nodes, i)
    ensures forall x | x in Without(nodes, i) :: x in nodes
  {
    forall p, q | 0 <= p < q < |nodes| - 1
      ensures Without(nodes, i)[p] != Without(nodes, i)[q]
    {
      assert nodes[if p < i then p else p + 1] != nodes[if q < i then q else q + 1];
    }
  }

  /** The links of a list that the node at `i` has been passed over in. */
  ghost predicate Unhooked(parent: Item, nodes: seq<Item>, i: nat)
    requires i < |nodes|
    reads parent`child, nodes`next, nodes`prev
  {
    var last := nodes[|nodes| - 1];
    && parent.child == (if i == 0 then At(nodes, 1) else nodes[0])
    && (forall k {:trigger nodes[k].next} | 0 <= k < |nodes| && k != i :: nodes[k].next == At(nodes, if k + 1 == i then i + 1 else k + 1))
    && (forall k {:trigger nodes[k].prev} | 0 < k < |nodes| && k != i ::
          nodes[k].prev == if k != i + 1 then nodes[k - 1] else if i == 0 then last else nodes[i - 1])
    && (i != 0 ==> nodes[0].prev == if i == |nodes| - 1 then nodes[i - 1] else last)
  }

  lemma UnhookedChildren(parent: Item, nodes: seq<Item>, i: nat)
    requires parent !in nodes && Apart(nodes) && i < |nodes| && Unhooked(parent, nodes, i)
    ensures Children(parent, Without(nodes, i))
  {
    hide Apart;
    ApartWithout(nodes, i);
    var r := Without(nodes, i);
    assert Forward(r);
    assert Backward(r);
    assert parent.child == At(r, 0);
    assert r != [] ==> r[0].prev == r[|r| - 1];
  }

  /** `cJSON_DetachItemViaPointer`: the item leaves the list and points nowhere. */
  method DetachItemViaPointer(parent: Item, item: Item, ghost nodes: seq<Item>, ghost i: nat)
    requires Children(parent, nodes) && i < |nodes| && nodes[i] == item
    modifies parent`child, nodes`next, nodes`prev
    ensures Children(parent, Without(nodes, i))
    ensures item.next == null && item.prev == null
  {
    hide Without;
    assert item.next == At(nodes, i + 1);
    if item != parent.child {
      assert item.prev == nodes[i - 1];
      item.prev.next := item.next;
    }
    if item.next != null {
      item.next.prev := item.prev;
    }
    if item == parent.child {
      parent.child := item.next;
    } else if item.next == null {
      parent.child.prev := item.prev;
    }
    item.prev := null;
    item.next := null;
    UnhookedChildren(parent, nodes, i);
  }

  lemma ApartInserted(nodes: seq<Item>, i: nat, x: Item)
    requires Apart(nodes) && i <= |nodes| && x !in nodes
    ensures Apart(Inserted(nodes, i, x))
    ensures forall y | y in Inserted(nodes, i, x) :: y == x || y in nodes
    ensures i == |nodes| ==> Inserted(nodes, i, x) == nodes + [x]
  {
    var r := Inserted(nodes, i, x);
    forall p, q | 0 <= p < q < |r|
      ensures r[p] != r[q]
    {
      if p != i && q != i { assert nodes[if p < i then p else p - 1] != nodes[if q < i then q else q - 1]; }
    }
  }

  /** `cJSON_InsertItemInArray`: before the item at the index, or at the end if there is none. */
  method InsertItemInArray(parent: Item, which: int, item: Item, ghost nodes: seq<Item>) returns (ok: bool)
    requires Children(parent, nodes) && item !in nodes && item != parent && item.next == null
    modifies parent`child, item`prev, item`next, nodes`next, nodes`prev
    ensures ok <==> which >= 0
    ensures Children(parent, if !ok then nodes else if which <= |nodes| then Inserted(nodes, which, item) else nodes + [item])
  {
    if which < 0 { return false; }
    if which <= |nodes| { ApartInserted(nodes, which, item); }
    var after := GetArrayItem(parent, which, nodes);
    if after == null {
      ok := AddItemToArray(parent, item, nodes);
      return;
    }
    InsertBefore(parent, after, item, nodes, which);
    ok := true;
  }

  /** `insert_item_in_array` of the patch layer: an index past the end is refused. */
  method InsertItemWithin(parent: Item, which: nat, item: Item, ghost nodes: seq<Item>) returns (ok: bool)
    requires Children(parent, nodes) && item !in nodes && item != parent && item.next == null
    modifies parent`child, item`prev, item`next, nodes`next, nodes`prev
    ensures ok <==> which <= |nodes|
    ensures Children(parent, if ok then Inserted(nodes, which, item) else nodes)
  {
    var child := parent.child;
    var left := which;
    ghost var i: nat := 0;
    while child != null && left > 0
      invariant 0 <= left && i <= |nodes| && child == At(nodes, i) && left + i == which
      decreases |nodes| - i
    {
      assert nodes[i].next == At(nodes, i + 1);
      child := child.next;
      left := left - 1;
      i := i + 1;
    }
    assert child == null ==> i == |nodes|;
    if left > 0 { return false; }
    ApartInserted(nodes, which, item);
    if child == null {
      ok := AddItemToArray(parent, item, nodes);
      return true;
    }
    InsertBefore(parent, child, item, nodes, which);
    ok := true;
  }

  /** The relinking that both insertions do. */
  method InsertBefore(parent: Item, after: Item, item: Item, ghost nodes: seq<Item>, ghost i: nat)
    requires Children(parent, nodes) && item !in nodes && item != parent
    requires i < |nodes| && nodes[i] == after
    modifies parent`child, item`prev, item`next, nodes`next, nodes`prev
    ensures Children(parent, Inserted(nodes, i, item))
  {
    ApartInserted(nodes, i, item);
    item.next := after;
    item.prev := after.prev;
    after.prev := item;
    if after == parent.child {
      parent.child := item;
    } else {
      item.prev.next := item;
    }
  }

  lemma ApartReplaced(nodes: seq<Item>, i: nat, x: Item)
    requires Apart(nodes) && i < |nodes| && x !in nodes
    ensures Apart(nodes[i := x])
    ensures forall y | y in nodes[i := x] :: y == x || y in nodes
  {
  }

  /** `cJSON_ReplaceItemViaPointer`: the replacement stands where the item stood, and the item points nowhere. */
  method ReplaceItemViaPointer(parent: Item, item: Item, replacement: Item, ghost nodes: seq<Item>, ghost i: nat)
    requires Children(parent, nodes) && i < |nodes| && nodes[i] == item
    requires replacement == item || (replacement !in nodes && replacement != parent)
    modifies parent`child, replacement`prev, replacement`next, nodes`next, nodes`prev
    ensures Children(parent, nodes[i := replacement])
    ensures replacement != item ==> item.next == null && item.prev == null
  {
    if replacement == item { return; }
    ApartReplaced(nodes, i, replacement);
    assert item.next == At(nodes, i + 1);
    replacement.next := item.next;
    replacement.prev := item.prev;
    if replacement.next != null {
      replacement.next.prev := replacement;
    }
    if parent.child == item {
      if parent.child.prev == parent.child {
        replacement.prev := replacement;
      }
      parent.child := replacement;
    } else {
      assert item.prev == nodes[i - 1];
      if replacement.prev != null {
        replacement.prev.next := replacement;
      }
      if replacement.next == null {
        parent.child.prev := replacement;
      }
    }
    item.next := null;
    item.prev := null;
  }

  // ---- runs of edits ----

  datatype Edit = Append(item: Item) | Insert(which: nat, item: Item) | Detach(which: nat) | Replace(which: nat, item: Item)

  /** The sequence operation that an edit stands for. */
  function Edited(nodes: seq<Item>, e: Edit): seq<Item> {
    match e
    case Append(item) => nodes + [item]
    case Insert(which, item) => if which <= |nodes| then Inserted(nodes, which, item) else nodes + [item]
    case Detach(which) => if which < |nodes| then Without(nodes, which) else nodes
    case Replace(which, item) => if which < |nodes| then nodes[which := item] else nodes
  }

  function EditedAll(nodes: seq<Item>, edits: seq<Edit>): seq<Item>
    decreases |edits|
  {
    if edits == [] then nodes else EditedAll(Edited(nodes, edits[0]), edits[1..])
  }

  /** The items a client may link: those it holds that are not in the list. A replaced item is deleted. */
  function Spare(nodes: seq<Item>, spare: set<Item>, e: Edit): set<Item> {
    match e
    case Append(item) => spare - {item}
    case Insert(_, item) => spare - {item}
    case Detach(which) => if which < |nodes| then spare + {nodes[which]} else spare
    case Replace(which, item) => if which < |nodes| then spare - {item} else spare
  }

  /** Every edit links an item that is not linked. */
  predicate Legal(nodes: seq<Item>, spare: set<Item>, edits: seq<Edit>)
    decreases |edits|
  {
    edits == [] ||
    (&& (!edits[0].Detach? ==> edits[0].item in spare)
     && Legal(Edited(nodes, edits[0]), Spare(nodes, spare, edits[0]), edits[1..]))
  }

  ghost predicate Unlinked(parent: Item, nodes: seq<Item>, spare: set<Item>)
    reads spare`next, spare`prev
  {
    forall x | x in spare :: x != parent && x !in nodes && x.next == null
  }

  /** One edit, by index. */
  method DoEdit(parent: Item, e: Edit, ghost nodes: seq<Item>, ghost spare: set<Item>)
    requires Children(parent, nodes) && Unlinked(parent, nodes, spare)
    requires !e.Detach? ==> e.item in spare
    modifies parent`child, nodes`next, nodes`prev, spare`next, spare`prev
    ensures Children(parent, Edited(nodes, e)) && Unlinked(parent, Edited(nodes, e), Spare(nodes, spare, e))
  {
    match e
    case Append(item) =>
      var ok := AddItemToArray(parent, item, nodes);
    case Insert(which, item) =>
      if which <= |nodes| { ApartInserted(nodes, which, item); }
      var ok := InsertItemInArray(parent, which, item, nodes);
    case Detach(which) => DetachAt(parent, which, nodes, spare);
    case Replace(which, replacement) => ReplaceAt(parent, which, replacement, nodes, spare);
  }

  /** `cJSON_DetachItemFromArray` */
  method DetachAt(parent: Item, which: nat, ghost nodes: seq<Item>, ghost spare: set<Item>)
    requires Children(parent, nodes) && Unlinked(parent, nodes, spare)
    modifies parent`child, nodes`next, nodes`prev
    ensures Children(parent, Edited(nodes, Detach(which)))
    ensures Unlinked(parent, Edited(nodes, Detach(which)), Spare(nodes, spare, Detach(which)))
  {
    hide Without, Apart, Forward, Backward;
    var item := GetArrayItem(parent, which, nodes);
    if item != null {
      ApartWithout(nodes, which);
      DetachItemViaPointer(parent, item, nodes, which);
    }
  }

  /** `cJSON_ReplaceItemInArray` */
  method ReplaceAt(parent: Item, which: nat, replacement: Item, ghost nodes: seq<Item>, ghost spare: set<Item>)
    requires Children(parent, nodes) && Unlinked(parent, nodes, spare) && replacement in spare
    modifies parent`child, replacement`next, replacement`prev, nodes`next, nodes`prev
    ensures Children(parent, Edited(nodes, Replace(which, replacement)))
    ensures Unlinked(parent, Edited(nodes, Replace(which, replacement)), Spare(nodes, spare, Replace(which, replacement)))
  {
    var item := GetArrayItem(parent, which, nodes);
    if item != null {
      ApartReplaced(nodes, which, replacement);
      ReplaceItemViaPointer(parent, item, replacement, nodes, which);
    }
  }

  lemma EditedWithin(nodes: seq<Item>, spare: set<Item>, e: Edit, pool: set<Item>)
    requires (forall i {:trigger nodes[i]} | 0 <= i < |nodes| :: nodes[i] in pool) && spare <= pool
    requires !e.Detach? ==> e.item in spare
    ensures forall i {:trigger Edited(nodes, e)[i]} | 0 <= i < |Edited(nodes, e)| :: Edited(nodes, e)[i] in pool
    ensures Spare(nodes, spare, e) <= pool
  {
  }

  /** Over every run of edits the list stays a child list, and is what the sequence operations make of it. */
  method RunEdits(parent: Item, edits: seq<Edit>, ghost nodes0: seq<Item>, ghost spare0: set<Item>) returns (ghost nodes: seq<Item>)
    requires Children(parent, nodes0) && Unlinked(parent, nodes0, spare0) && Legal(nodes0, spare0, edits)
    modifies parent`child, nodes0`next, nodes0`prev, spare0`next, spare0`prev
    ensures nodes == EditedAll(nodes0, edits) && Children(parent, nodes)
  {
    hide Children, Unlinked, Edited, Spare;
    ghost var spare, pool := spare0, (set x | x in nodes0) + spare0;
    nodes := nodes0;
    var k := 0;
    assert edits[0..] == edits;
    while k < |edits|
      invariant 0 <= k <= |edits|
      invariant Children(parent, nodes) && Unlinked(parent, nodes, spare) && Legal(nodes, spare, edits[k..])
      invariant EditedAll(nodes, edits[k..]) == EditedAll(nodes0, edits)
      invariant (forall i {:trigger nodes[i]} | 0 <= i < |nodes| :: nodes[i] in pool) && spare <= pool
    {
      ghost var e := edits[k];
      assert edits[k..][0] == e && edits[k..][1..] == edits[k + 1..];
      EditedWithin(nodes, spare, e, pool);
      DoEdit(parent, edits[k], nodes, spare);
      nodes, spare := Edited(nodes, e), Spare(nodes, spare, e);
      k := k + 1;
    }
  }
}

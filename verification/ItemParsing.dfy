/** `parse_value`, `parse_array` and `parse_object`: the parser builds a tree of items. */
module ItemParsing {
  import opened Bytes
  import opened Json
  import opened Pointers
  import opened Escapes
  import opened Spellings
  import opened Parsing
  import opened ParseBuffers
  import opened ChildLists
  import opened ItemTrees
  import opened ItemWalks
  import opened ItemEdits

  // ---- building ----

  /** The items built so far: trees of their own, linked in a row. */
  ghost predicate Chained(head: Item?, current: Item?, ts: seq<Shape>)
    reads Roots(ts)`child, Roots(ts)`kind, Roots(ts)`next, Roots(ts)`prev, BelowAll(ts)
  {
    Forest(ts) && InRow(head, current, Roots(ts))
  }

  ghost predicate InRow(head: Item?, current: Item?, nodes: seq<Item>)
    reads nodes`next, nodes`prev
  {
    && Forward(nodes) && Backward(nodes) && head == ChildLists.At(nodes, 0)
    && current == (if nodes == [] then null else nodes[|nodes| - 1])
  }

  /** The step ended as the function says: a success moves the cursor on, leaves the depth as it was and has built the tree. */
  ghost predicate Built(buffer: ParseBuffer, ok: bool, t: Shape, spec: Parsed<Json>, d: nat)
    reads buffer, t.item`child, t.item`kind, t.item`number, t.item`text, NodesAll(t.children)
  {
    match spec
    case Ok(v, next) => ok && buffer.offset == next && buffer.depth == d && Tree(t) && JsonOf(t) == v
    case Err(at) => !ok && buffer.offset == at
  }

  /** An item without children, of a kind and a value. */
  method SetScalar(item: Item, kind: Kind, number: int32, text: Str) returns (ghost t: Shape)
    requires item.child == null && !Container(kind)
    modifies item`kind, item`number, item`text
    ensures t == Shape(item, []) && Tree(t) && NodesAll(t.children) == {}
    ensures JsonOf(t) == match kind
                         case NullItem => Null
                         case FalseItem => False
                         case TrueItem => True
                         case NumberItem => Number(number)
                         case _ => String(text)
  {
    item.kind, item.number, item.text := kind, number, text;
    t := Shape(item, []);
  }

  /** A new item stands at the end of the row, and what came before it is complete. */
  ghost predicate Waiting(head: Item?, item: Item, ts: seq<Shape>, vs: seq<Json>, ms: seq<Member<Json>>)
    reads NodesAll(ts), item`next, item`prev
  {
    RootsAndBelow(ts);
    Forest(ts) && InRow(head, item, Roots(ts) + [item]) && Values(ts) == vs && Members(ts) == ms
  }

  /** A new item at the end of the row. */
  method LinkNew(head0: Item?, current: Item?, ghost ts: seq<Shape>) returns (head: Item, item: Item)
    requires Chained(head0, current, ts)
    modifies (if current == null then {} else {current})`next
    ensures fresh(item) && item.child == null && item !in NodesAll(ts)
    ensures Waiting(head, item, ts, old(Values(ts)), old(Members(ts)))
  {
    hide Tree, Forest, Nodes, NodesAll, BelowAll, JsonOf, Values, Members, Backward;
    RootsNotBelow(ts);
    RootsAndBelow(ts);
    ForestExists(ts);
    item := new Item();
    head := item;
    if head0 != null {
      head := head0;
      current.next := item;
      item.prev := current;
    }
    OneMore(Roots(ts), item);
  }

  lemma OneMore(nodes: seq<Item>, item: Item)
    requires item.next == null && item !in nodes && (nodes != [] ==> item.prev == nodes[|nodes| - 1])
    requires forall i {:trigger nodes[i].next} | 0 <= i < |nodes| :: nodes[i].next == if i + 1 < |nodes| then nodes[i + 1] else item
    requires Backward(nodes)
    ensures Forward(nodes + [item]) && Backward(nodes + [item])
  {
  }

  /** A parsed tree takes its place at the end of the row. */
  lemma LinkedIn(head: Item, item: Item, ts: seq<Shape>, t: Shape, vs: seq<Json>, ms: seq<Member<Json>>)
    requires Waiting(head, item, ts, vs, ms) && Tree(t) && t.item == item && Nodes(t) !! NodesAll(ts)
    ensures Chained(head, item, ts + [t])
    ensures Values(ts + [t]) == vs + [JsonOf(t)] && Members(ts + [t]) == ms + [Member(item.key, JsonOf(t))]
    ensures NodesAll(ts + [t]) == NodesAll(ts) + Nodes(t)
  {
    hide Tree, Forest, Nodes, NodesAll, BelowAll, JsonOf, Values, Members;
    AppendForest(ts, t);
    AppendShapes(ts, t);
    AppendValues(ts, t);
  }

  /** The head points back to the tail, and the row becomes the children of the item. */
  method FinishList(item: Item, kind: Kind, head: Item?, current: Item?, ghost ts: seq<Shape>) returns (ghost t: Shape)
    requires Chained(head, current, ts) && Container(kind) && item !in NodesAll(ts)
    modifies item`kind, item`child, (if head == null then {} else {head})`prev
    ensures t == Shape(item, ts) && Tree(t)
    ensures JsonOf(t) == if kind == ArrayItem then Array(old(Values(ts))) else Object(old(Members(ts)))
  {
    hide Tree, Forest, Nodes, NodesAll, BelowAll, JsonOf, Values, Members;
    RootsNotBelow(ts);
    RootsAndBelow(ts);
    if head != null { head.prev := current; }
    item.kind, item.child := kind, head;
    CopyDone(item, ts);
    t := Shape(item, ts);
    KindOf(t);
  }

  /** The end of a container: what `parse_array` and `parse_object` do on success. */
  method CloseContainer(item: Item, kind: Kind, head: Item?, current: Item?, buffer: ParseBuffer, ghost ts: seq<Shape>) returns (ghost t: Shape)
    requires Chained(head, current, ts) && Container(kind) && item !in NodesAll(ts) && buffer.depth > 0
    modifies buffer, item`kind, item`child, (if head == null then {} else {head})`prev
    ensures t == Shape(item, ts) && Tree(t)
    ensures JsonOf(t) == if kind == ArrayItem then Array(old(Values(ts))) else Object(old(Members(ts)))
    ensures buffer.depth == old(buffer.depth) - 1 && buffer.offset == old(buffer.offset) + 1
  {
    hide Tree, Forest, NodesAll, JsonOf, Values, Members;
    t := FinishList(item, kind, head, current, ts);
    buffer.depth := buffer.depth - 1;
    buffer.offset := buffer.offset + 1;
  }

  // ---- the parser ----

  method ParseValue(item: Item, buffer: ParseBuffer) returns (ok: bool, ghost t: Shape)
    requires buffer.offset <= |buffer.input.text| && item.child == null
    modifies buffer, item`kind, item`number, item`text, item`child
    ensures Built(buffer, ok, t, Parsing.ParseValue(buffer.input, old(buffer.offset), old(buffer.depth)), old(buffer.depth))
    ensures ok ==> t.item == item && fresh(NodesAll(t.children))
    decreases |buffer.input.text| - buffer.offset, 2
  {
    hide Here, SkipSpace, Tree, JsonOf;
    t := Shape(item, []);
    ok := true;
    var c := buffer.Current();
    if Here(buffer.input.text, buffer.offset, NULL_WORD) {
      t := SetScalar(item, NullItem, 0, []);
      buffer.offset := buffer.offset + 4;
    } else if Here(buffer.input.text, buffer.offset, FALSE_WORD) {
      t := SetScalar(item, FalseItem, 0, []);
      buffer.offset := buffer.offset + 5;
    } else if Here(buffer.input.text, buffer.offset, TRUE_WORD) {
      t := SetScalar(item, TrueItem, 1, []);
      buffer.offset := buffer.offset + 4;
    } else if c == QUOTE {
      var s := buffer.ParseString();
      ok := s.Some?;
      if ok { t := SetScalar(item, StringItem, 0, s.value); }
    } else if StartsNumber(c) {
      var n := buffer.ParseNumber();
      ok := n.Some?;
      if ok { t := SetScalar(item, NumberItem, n.value, []); }
    } else if c == LEFT_BRACKET {
      ok, t := ParseArray(item, buffer);
    } else if c == LEFT_BRACE {
      ok, t := ParseObject(item, buffer);
    } else {
      ok := false;
    }
  }

  /** `parse_array` */
  method ParseArray(item: Item, buffer: ParseBuffer) returns (ok: bool, ghost t: Shape)
    requires buffer.offset < |buffer.input.text| && buffer.input.text[buffer.offset] == LEFT_BRACKET && item.child == null
    modifies buffer, item`kind, item`child
    ensures Built(buffer, ok, t, Parsing.ParseArray(buffer.input, old(buffer.offset), old(buffer.depth)), old(buffer.depth))
    ensures ok ==> t.item == item && fresh(NodesAll(t.children))
    decreases |buffer.input.text| - buffer.offset, 1
  {
    hide SkipSpace, Tree, JsonOf, Parsing.ParseElements, Forest, Values, Members, NodesAll, Chained, BelowAll;
    ok, t := false, Shape(item, []);
    if buffer.depth >= NESTING_LIMIT { return; }
    buffer.depth := buffer.depth + 1;
    buffer.offset := buffer.offset + 1;
    buffer.SkipWhitespace();
    var head, current := null, null;
    ghost var ts := [];
    NothingChained();
    if buffer.Current() != RIGHT_BRACKET {
      buffer.offset := buffer.offset - 1;
      ok, head, current, ts := ParseElements(buffer);
      if !ok { return; }
    }
    ok := true;
    HeadIn(head, current, ts);
    t := CloseContainer(item, ArrayItem, head, current, buffer, ts);
  }

  lemma NothingChained()
    ensures Chained(null, null, []) && Values([]) == [] && Members([]) == [] && NodesAll([]) == {}
  {
  }

  lemma HeadIn(head: Item?, current: Item?, ts: seq<Shape>)
    requires Chained(head, current, ts)
    ensures head != null ==> head in NodesAll(ts)
    ensures current != null ==> current in NodesAll(ts)
  {
    RootsAndBelow(ts);
  }

  /** The loop over the elements: one, and another one after every comma. */
  method ParseElements(buffer: ParseBuffer) returns (ok: bool, head: Item?, current: Item?, ghost ts: seq<Shape>)
    requires buffer.offset < |buffer.input.text|
    modifies buffer
    ensures match Parsing.ParseElements(buffer.input, old(buffer.offset) + 1, old(buffer.depth))
            case Ok(vs, next) => ok && buffer.offset + 1 == next && buffer.depth == old(buffer.depth) && Chained(head, current, ts) && Values(ts) == vs
            case Err(at) => !ok && buffer.offset == at
    ensures ok ==> fresh(NodesAll(ts))
    decreases |buffer.input.text| - buffer.offset, 0, 2
  {
    hide ElementAt, SkipSpace, Tree, JsonOf, Parsing.ParseElements, Forest, Values, NodesAll, Chained, BelowAll;
    ghost var all := Parsing.ParseElements(buffer.input, buffer.offset + 1, buffer.depth);
    head, current, ts := null, null, [];
    NothingChained();
    ThenNothing(all);
    var more := true;
    while more
      invariant old(buffer.offset) <= buffer.offset <= |buffer.input.text| && buffer.depth == old(buffer.depth)
      invariant Chained(head, current, ts) && fresh(NodesAll(ts))
      invariant more ==> buffer.offset < |buffer.input.text|
      invariant more ==> Then(Values(ts), Parsing.ParseElements(buffer.input, buffer.offset + 1, buffer.depth)) == all
      invariant !more ==> all == if buffer.Current() == RIGHT_BRACKET then Ok(Values(ts), buffer.offset + 1) else Err(buffer.offset)
      decreases |buffer.input.text| - buffer.offset, if more then 1 else 0
    {
      ElementsNext(buffer.input, buffer.offset + 1, buffer.depth, Values(ts));
      HeadIn(head, current, ts);
      ok, head, current, ts := ParseElement(head, current, buffer, ts);
      if !ok { return; }
      more := buffer.Current() == COMMA;
    }
    ok := buffer.Current() == RIGHT_BRACKET;
  }

  /** The next value, with the white space around it. */
  method ParseInto(item: Item, buffer: ParseBuffer) returns (ok: bool, ghost t: Shape)
    requires buffer.offset < |buffer.input.text| && item.child == null
    modifies buffer, item`kind, item`number, item`text, item`child
    ensures Built(buffer, ok, t, ElementAt(buffer.input, old(buffer.offset) + 1, old(buffer.depth)), old(buffer.depth))
    ensures ok ==> t.item == item && fresh(NodesAll(t.children))
    decreases |buffer.input.text| - buffer.offset, 0, 0
  {
    hide SkipSpace, Tree, JsonOf, Parsing.ParseValue, NodesAll;
    buffer.offset := buffer.offset + 1;
    buffer.SkipWhitespace();
    ok, t := ParseValue(item, buffer);
    if !ok { return; }
    TreeExists(t);
    buffer.SkipWhitespace();
  }

  /** One turn: a new item is linked, and the value parsed into it. */
  method ParseElement(head0: Item?, current: Item?, buffer: ParseBuffer, ghost ts: seq<Shape>) returns (ok: bool, head: Item, item: Item, ghost ts': seq<Shape>)
    requires buffer.offset < |buffer.input.text| && Chained(head0, current, ts)
    modifies buffer, (if current == null then {} else {current})`next
    ensures match ElementAt(buffer.input, old(buffer.offset) + 1, old(buffer.depth))
            case Ok(v, next) =>
              && ok && buffer.offset == next && buffer.depth == old(buffer.depth)
              && Chained(head, item, ts') && Values(ts') == old(Values(ts)) + [v]
            case Err(at) => !ok && buffer.offset == at
    ensures ok ==> forall n | n in NodesAll(ts') :: n in NodesAll(ts) || fresh(n)
    decreases |buffer.input.text| - buffer.offset, 0, 1
  {
    hide ElementAt, Tree, JsonOf, Forest, Values, Members, NodesAll, Nodes, Chained, BelowAll, Waiting;
    AllExist(ts);
    ghost var vs, ms := Values(ts), Members(ts);
    head, item := LinkNew(head0, current, ts);
    ghost var t;
    ok, t := ParseInto(item, buffer);
    ts' := ts + [t];
    if !ok { return; }
    NodesOf(t);
    LinkedIn(head, item, ts, t, vs, ms);
  }

  /** `parse_object` */
  method ParseObject(item: Item, buffer: ParseBuffer) returns (ok: bool, ghost t: Shape)
    requires buffer.offset < |buffer.input.text| && buffer.input.text[buffer.offset] == LEFT_BRACE && item.child == null
    modifies buffer, item`kind, item`child
    ensures Built(buffer, ok, t, Parsing.ParseObject(buffer.input, old(buffer.offset), old(buffer.depth)), old(buffer.depth))
    ensures ok ==> t.item == item && fresh(NodesAll(t.children))
    decreases |buffer.input.text| - buffer.offset, 1
  {
    hide SkipSpace, Tree, JsonOf, Parsing.ParseMembers, Forest, Values, Members, NodesAll, Chained, BelowAll;
    ok, t := false, Shape(item, []);
    if buffer.depth >= NESTING_LIMIT { return; }
    buffer.depth := buffer.depth + 1;
    buffer.offset := buffer.offset + 1;
    buffer.SkipWhitespace();
    var head, current := null, null;
    ghost var ts := [];
    NothingChained();
    if buffer.Current() != RIGHT_BRACE {
      buffer.offset := buffer.offset - 1;
      ok, head, current, ts := ParseMembers(buffer);
      if !ok { return; }
    }
    ok := true;
    HeadIn(head, current, ts);
    t := CloseContainer(item, ObjectItem, head, current, buffer, ts);
  }

  /** The loop over the members. */
  method ParseMembers(buffer: ParseBuffer) returns (ok: bool, head: Item?, current: Item?, ghost ts: seq<Shape>)
    requires buffer.offset < |buffer.input.text|
    modifies buffer
    ensures match Parsing.ParseMembers(buffer.input, old(buffer.offset) + 1, old(buffer.depth))
            case Ok(ms, next) => ok && buffer.offset + 1 == next && buffer.depth == old(buffer.depth) && Chained(head, current, ts) && Members(ts) == ms
            case Err(at) => !ok && buffer.offset == at
    ensures ok ==> fresh(NodesAll(ts))
    decreases |buffer.input.text| - buffer.offset, 0, 2
  {
    hide Parsing.ParseMember, SkipSpace, Tree, JsonOf, Parsing.ParseMembers, Forest, Members, NodesAll, Chained, BelowAll;
    ghost var all := Parsing.ParseMembers(buffer.input, buffer.offset + 1, buffer.depth);
    head, current, ts := null, null, [];
    NothingChained();
    ThenNothing(all);
    var more := true;
    while more
      invariant old(buffer.offset) <= buffer.offset <= |buffer.input.text| && buffer.depth == old(buffer.depth)
      invariant Chained(head, current, ts) && fresh(NodesAll(ts))
      invariant more ==> buffer.offset < |buffer.input.text|
      invariant more ==> Then(Members(ts), Parsing.ParseMembers(buffer.input, buffer.offset + 1, buffer.depth)) == all
      invariant !more ==> all == if buffer.Current() == RIGHT_BRACE then Ok(Members(ts), buffer.offset + 1) else Err(buffer.offset)
      decreases |buffer.input.text| - buffer.offset, if more then 1 else 0
    {
      MembersNext(buffer.input, buffer.offset + 1, buffer.depth, Members(ts));
      HeadIn(head, current, ts);
      ok, head, current, ts := ParseMember(head, current, buffer, ts);
      if !ok { return; }
      more := buffer.Current() == COMMA;
    }
    ok := buffer.Current() == RIGHT_BRACE;
  }

  /** One turn: a new item is linked, named, and the value parsed into it. */
  method ParseMember(head0: Item?, current: Item?, buffer: ParseBuffer, ghost ts: seq<Shape>) returns (ok: bool, head: Item, item: Item, ghost ts': seq<Shape>)
    requires buffer.offset < |buffer.input.text| && Chained(head0, current, ts)
    modifies buffer, (if current == null then {} else {current})`next
    ensures match Parsing.ParseMember(buffer.input, old(buffer.offset) + 1, old(buffer.depth))
            case Ok(m, next) =>
              && ok && buffer.offset == next && buffer.depth == old(buffer.depth)
              && Chained(head, item, ts') && Members(ts') == old(Members(ts)) + [m]
            case Err(at) => !ok && buffer.offset == at
    ensures ok ==> forall n | n in NodesAll(ts') :: n in NodesAll(ts) || fresh(n)
    decreases |buffer.input.text| - buffer.offset, 0, 1
  {
    hide Parsing.ParseMember, Tree, JsonOf, Forest, Values, Members, NodesAll, Nodes, Chained, BelowAll, Waiting;
    AllExist(ts);
    ghost var vs, ms := Values(ts), Members(ts);
    head, item := LinkNew(head0, current, ts);
    ghost var t;
    ok, t := ParseNamed(item, buffer);
    ts' := ts + [t];
    if !ok { return; }
    NodesOf(t);
    LinkedIn(head, item, ts, t, vs, ms);
  }

  /** The next name, the colon and the value, with the white space around them. */
  method ParseNamed(item: Item, buffer: ParseBuffer) returns (ok: bool, ghost t: Shape)
    requires buffer.offset < |buffer.input.text| && item.child == null
    modifies buffer, item`kind, item`number, item`text, item`child, item`key
    ensures match Parsing.ParseMember(buffer.input, old(buffer.offset) + 1, old(buffer.depth))
            case Ok(m, next) => ok && buffer.offset == next && buffer.depth == old(buffer.depth) && Tree(t) && m == Member(item.key, JsonOf(t))
            case Err(at) => !ok && buffer.offset == at
    ensures ok ==> t.item == item && fresh(NodesAll(t.children))
    decreases |buffer.input.text| - buffer.offset, 0, 0
  {
    hide SkipSpace, Tree, JsonOf, Parsing.ParseValue, Parsing.ParseString, NodesAll;
    ok, t := false, Shape(item, []);
    var key := ParseKey(buffer);
    if key == None { return; }
    item.key := key.value;
    if buffer.Current() != COLON { return; }
    ok, t := ParseInto(item, buffer);
  }

  /** The next name, with the white space around it. */
  method ParseKey(buffer: ParseBuffer) returns (key: Option<Str>)
    requires buffer.offset < |buffer.input.text|
    modifies buffer
    ensures buffer.depth == old(buffer.depth)
    ensures match Parsing.ParseString(buffer.input, SkipSpace(buffer.input.text, old(buffer.offset) + 1))
            case Ok(k, next) => key == Some(k) && buffer.offset == SkipSpace(buffer.input.text, next)
            case Err(at) => key == None && buffer.offset == at
  {
    hide SkipSpace, Parsing.ParseString;
    buffer.offset := buffer.offset + 1;
    buffer.SkipWhitespace();
    key := buffer.ParseString();
    if key != None { buffer.SkipWhitespace(); }
  }

  /** `cJSON_ParseWithOpts`: the tree of items, and the place the caller's end pointer is set to. */
  method ParseText(input: Input, requireNullTerminated: bool) returns (r: Item?, end: nat, ghost t: Shape)
    ensures match ParseWithOpts(input, requireNullTerminated)
            case Ok(v, next) => r != null && Tree(t) && t.item == r && fresh(Nodes(t)) && JsonOf(t) == v && end == next
            case Err(at) => r == null && end == at
  {
    hide Parsing.ParseValue, SkipSpace, Tree, JsonOf;
    var buffer := new ParseBuffer(input);
    if |input.text| >= 4 && input.text[..3] == BYTE_ORDER_MARK { buffer.offset := 3; }
    var item := new Item();
    buffer.SkipWhitespace();
    var ok;
    ok, t := ParseValue(item, buffer);
    r := if ok then item else null;
    if ok && requireNullTerminated {
      TreeExists(t);
      buffer.SkipWhitespace();
      if Pointers.At(input.text, buffer.offset) != 0 { r := null; }
    }
    end := if buffer.offset < buffer.Length() then buffer.offset else buffer.Length() - 1;
  }
}

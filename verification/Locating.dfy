/** Nodes of a tree as positions, following a pointer to a node, and finding the pointer of a node. */
module Locating {
  import opened Bytes
  import opened Json
  import opened Pointers

  /** A node is named by the child indices on the way down to it. */
  type Position = seq<nat>

  function ChildCount(t: Json): nat {
    match t
    case Array(items) => |items|
    case Object(ms) => |ms|
    case _ => 0
  }

  function Child(t: Json, i: nat): (c: Json)
    requires i < ChildCount(t)
    ensures c < t
  {
    match t
    case Array(items) => items[i]
    case Object(ms) => ms[i].value
  }

  function WithChild(t: Json, i: nat, c: Json): (r: Json)
    requires i < ChildCount(t)
    ensures ChildCount(r) == ChildCount(t)
    ensures forall j | 0 <= j < ChildCount(r) :: Child(r, j) == if j == i then c else Child(t, j)
  {
    match t
    case Array(items) => Array(items[i := c])
    case Object(ms) => Object(ms[i := Member(ms[i].key, c)])
  }

  predicate IsPosition(t: Json, pos: Position)
    decreases |pos|
  {
    pos == [] || (pos[0] < ChildCount(t) && IsPosition(Child(t, pos[0]), pos[1..]))
  }

  function NodeAt(t: Json, pos: Position): Json
    requires IsPosition(t, pos)
    decreases |pos|
  {
    if pos == [] then t else NodeAt(Child(t, pos[0]), pos[1..])
  }

  /** The tree after the node at `pos` has become `x`. */
  function PutAt(t: Json, pos: Position, x: Json): Json
    requires IsPosition(t, pos)
    decreases |pos|
  {
    if pos == [] then x else WithChild(t, pos[0], PutAt(Child(t, pos[0]), pos[1..], x))
  }

  /** The first member that the next token of a pointer names, or the number of members. */
  function FindToken(ms: seq<Member<Json>>, pointer: Str, cs: bool): (i: nat)
    ensures i <= |ms|
  {
    if ms == [] || ComparePointers(ms[0].key, pointer, cs) then 0 else 1 + FindToken(ms[1..], pointer, cs)
  }

  /** The child that the next token of a pointer leads to. */
  function StepInto(t: Json, pointer: Str, cs: bool): (i: Option<nat>)
    ensures i.Some? ==> i.value < ChildCount(t)
  {
    match t
    case Array(items) =>
      (match DecodeIndex(pointer)
       case None => None
       case Some(i) => if i < |items| then Some(i) else None)
    case Object(ms) =>
      var i := FindToken(ms, pointer, cs);
      if i < |ms| then Some(i) else None
    case _ => None
  }

  /** `get_item_from_pointer`: the node, or None for NULL. */
  function Locate(t: Json, pointer: Str, cs: bool): (r: Option<Position>)
    ensures r.Some? ==> IsPosition(t, r.value)
    decreases |pointer|
  {
    if pointer == [] || pointer[0] != SLASH then Some([])
    else
      match StepInto(t, pointer[1..], cs)
      case None => None
      case Some(i) =>
        match Locate(Child(t, i), SkipToken(pointer[1..]), cs)
        case None => None
        case Some(pos) => Some([i] + pos)
  }

  /** The indices fit `size_t`, as those of nodes in memory do. */
  predicate Addressable(pos: Position) {
    forall j | 0 <= j < |pos| :: pos[j] < SIZE_VALUES
  }

  // ---- the pointer of a node ----

  /** The pointer token of the child at an index. */
  function Label(t: Json, i: nat): Str
    requires i < ChildCount(t)
  {
    match t
    case Array(_) => Decimal(i)
    case Object(ms) => Encode(ms[i].key)
  }

  /** The pointer spelled along the way to a node. */
  function PointerTo(t: Json, pos: Position): Str
    requires IsPosition(t, pos)
    decreases |pos|
  {
    if pos == [] then [] else [SLASH] + (Label(t, pos[0]) + PointerTo(Child(t, pos[0]), pos[1..]))
  }

  /** The names and indices along the way to a node. */
  function Names(t: Json, pos: Position): seq<Str>
    requires IsPosition(t, pos)
    decreases |pos|
  {
    if pos == [] then []
    else [if t.Object? then t.members[pos[0]].key else Decimal(pos[0])] + Names(Child(t, pos[0]), pos[1..])
  }

  /** Taken apart as RFC 6901 says, the spelled pointer gives these names and indices. */
  lemma {:induction false} SpelledTokens(t: Json, pos: Position)
    requires IsPosition(t, pos)
    ensures TokensOf(PointerTo(t, pos)) == Names(t, pos)
    decreases |pos|
  {
    if pos != [] {
      var rest := PointerTo(Child(t, pos[0]), pos[1..]);
      PointerEndsToken(Child(t, pos[0]), pos[1..]);
      assert PointerTo(t, pos)[1..] == Label(t, pos[0]) + rest;
      var name := if t.Object? then t.members[pos[0]].key else Decimal(pos[0]);
      EncodedIndex(pos[0]);
      FirstTokenIs(name, rest);
      EncodeNoSlash(name);
      SkipWithin(Encode(name), rest);
      SpelledTokens(Child(t, pos[0]), pos[1..]);
    }
  }

  lemma EncodedIndex(n: nat)
    ensures Encode(Decimal(n)) == Decimal(n)
  {
    DecimalIsIndex(n);
    assert forall i | 0 <= i < |Decimal(n)| :: IsDigit(Decimal(n)[i]);
    EncodePlain(Decimal(n));
  }

  /** At every object on the way, the member is the first one of its name. */
  predicate FirstOfItsName(t: Json, pos: Position)
    requires IsPosition(t, pos)
    decreases |pos|
  {
    pos == [] ||
    (&& (t.Object? ==> FindKey(t.members, t.members[pos[0]].key, true) == pos[0])
     && FirstOfItsName(Child(t, pos[0]), pos[1..]))
  }

  lemma PointerEndsToken(t: Json, pos: Position)
    requires IsPosition(t, pos)
    ensures EndsToken(PointerTo(t, pos))
  {
  }

  /** Looking for an escaped name among pointers is looking the name up. */
  lemma {:induction false} TokenIsKey(ms: seq<Member<Json>>, key: Str, rest: Str, cs: bool)
    requires EndsToken(rest)
    ensures FindToken(ms, Encode(key) + rest, cs) == FindKey(ms, key, cs)
  {
    if ms != [] {
      CompareEncoded(ms[0].key, key, rest, cs);
      CompareStringsEqual(key, ms[0].key, cs);
      TokenIsKey(ms[1..], key, rest, cs);
    }
  }

  /** A pointer that does not begin with a slash is taken for the whole document, and so is what is left of one further down. */
  lemma NoSlashStays(t: Json, pointer: Str, cs: bool)
    ensures pointer == [] || pointer[0] != '/' as int <==> Locate(t, pointer, cs) == Some([])
  {
  }

  /** A token that is not well escaped names no member. */
  lemma {:induction false} MalformedFindsNothing(ms: seq<Member<Json>>, pointer: Str, cs: bool)
    requires !EscapesValid(pointer)
    ensures FindToken(ms, pointer, cs) == |ms|
  {
    if ms != [] {
      ComparePointersExact(ms[0].key, pointer, cs);
      MalformedFindsNothing(ms[1..], pointer, cs);
    }
  }

  lemma LabelStep(t: Json, i: nat, rest: Str)
    requires i < ChildCount(t) && EndsToken(rest) && (t.Array? ==> i < SIZE_VALUES)
    ensures StepInto(t, Label(t, i) + rest, true) ==
            Some(if t.Object? then FindKey(t.members, t.members[i].key, true) else i)
    ensures SkipToken(Label(t, i) + rest) == rest
  {
    match t {
      case Array(items) =>
        DecimalRoundTrip(i);
        IndexOfToken(Decimal(i), rest);
        SkipWithin(Decimal(i), rest);
      case Object(ms) =>
        TokenIsKey(ms, ms[i].key, rest, true);
        EncodeNoSlash(ms[i].key);
        SkipWithin(Encode(ms[i].key), rest);
    }
  }

  /** The first step of a located position. */
  lemma LocateCons(t: Json, pointer: Str, cs: bool)
    requires pointer != [] && pointer[0] == SLASH && StepInto(t, pointer[1..], cs).Some?
    ensures var i := StepInto(t, pointer[1..], cs).value;
            var below, r := Locate(Child(t, i), SkipToken(pointer[1..]), cs), Locate(t, pointer, cs);
            && (r.Some? <==> below.Some?)
            && (r.Some? ==> r.value != [] && r.value[0] == i && r.value[1..] == below.value)
            && (r.Some? ==> NodeAt(t, r.value) == NodeAt(Child(t, i), below.value))
  {
    var i := StepInto(t, pointer[1..], cs).value;
    var below := Locate(Child(t, i), SkipToken(pointer[1..]), cs);
    if below.Some? {
      assert ([i] + below.value)[1..] == below.value;
    }
  }

  /** The first step along the pointer of a node. */
  lemma PointerStepsIn(t: Json, pos: Position)
    requires pos != [] && IsPosition(t, pos) && Addressable(pos)
    ensures var pointer, rest := PointerTo(t, pos), PointerTo(Child(t, pos[0]), pos[1..]);
            && pointer != [] && pointer[0] == SLASH && SkipToken(pointer[1..]) == rest
            && StepInto(t, pointer[1..], true) == Some(if t.Object? then FindKey(t.members, t.members[pos[0]].key, true) else pos[0])
  {
    var rest := PointerTo(Child(t, pos[0]), pos[1..]);
    PointerEndsToken(Child(t, pos[0]), pos[1..]);
    assert PointerTo(t, pos)[1..] == Label(t, pos[0]) + rest;
    LabelStep(t, pos[0], rest);
  }

  /** Following the spelled pointer leads back to the node exactly when each step names the first of its name. */
  lemma {:induction false} FollowPointer(t: Json, pos: Position)
    requires IsPosition(t, pos) && Addressable(pos)
    ensures Locate(t, PointerTo(t, pos), true) == Some(pos) <==> FirstOfItsName(t, pos)
    decreases |pos|
  {
    if pos != [] {
      var pointer := PointerTo(t, pos);
      PointerStepsIn(t, pos);
      FollowPointer(Child(t, pos[0]), pos[1..]);
      LocateCons(t, pointer, true);
      var r := Locate(t, pointer, true);
      if r.Some? { SameWay(r.value[0], r.value[1..], pos); }
    }
  }

  lemma SameWay(i: nat, p: Position, pos: Position)
    requires pos != []
    ensures [i] + p == pos <==> i == pos[0] && p == pos[1..]
  {
    assert pos == [pos[0]] + pos[1..];
    assert ([i] + p)[1..] == p;
  }

  /** So it leads back to the node itself, escapes in the names or not, in every tree with distinct names. */
  lemma {:induction false} DistinctIsFirst(t: Json, pos: Position)
    requires IsPosition(t, pos) && Distinct(t, true)
    ensures FirstOfItsName(t, pos)
    decreases |pos|
  {
    if pos != [] {
      if t.Object? {
        MemberMeaning(t.members, pos[0], true);
        assert t.members[pos[0]] in t.members;
      }
      DistinctIsFirst(Child(t, pos[0]), pos[1..]);
    }
  }
}

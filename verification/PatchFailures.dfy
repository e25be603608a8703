/** Patches of the whole document, patches that are none, and what a failure leaves. */
module PatchFailures {
  import opened Bytes
  import opened Json
  import opened Pointers
  import opened Decoding
  import opened Locating
  import opened Comparing
  import opened Patching

  /** The patch is refused, and the document is as it was. */
  predicate Refused(o: Outcome, t: Json) {
    o.Outcome? && o.status != 0 && o.doc == t
  }

  /** The words of section 4 of RFC 6902. */
  lemma PatchWords()
    ensures OP == Ascii("op") && PATH == Ascii("path") && VALUE == Ascii("value") && FROM == Ascii("from")
    ensures ADD == Ascii("add") && REMOVE == Ascii("remove") && REPLACE == Ascii("replace")
    ensures MOVE == Ascii("move") && COPY == Ascii("copy") && TEST == Ascii("test")
  {
  }

  // ---- the branches of `apply_patch` ----

  lemma OpsApart()
    ensures ADD != REMOVE && ADD != REPLACE && ADD != MOVE && ADD != COPY && ADD != TEST
    ensures REMOVE != REPLACE && REMOVE != MOVE && REMOVE != COPY && REMOVE != TEST
    ensures REPLACE != MOVE && REPLACE != COPY && REPLACE != TEST
    ensures MOVE != COPY && MOVE != TEST && COPY != TEST
  {
    assert |ADD| == 3 && |REMOVE| == 6 && |REPLACE| == 7 && |TEST| == 4 && |MOVE| == 4 && |COPY| == 4;
    assert MOVE[0] == 109 && COPY[0] == 99 && TEST[0] == 116;
  }

  /** The name of an operation in section 4 of the RFC. */
  predicate IsOperation(op: Str) {
    op == ADD || op == REMOVE || op == REPLACE || op == MOVE || op == COPY || op == TEST
  }

  /** A patch with a pointer and an operation. */
  predicate Asks(patch: Json, op: Str, path: Str, cs: bool) {
    Lookup(patch, PATH, cs) == Some(String(path)) && Lookup(patch, OP, cs) == Some(String(op)) && IsOperation(op)
  }

  /** Both values, or what is done below the root. */
  function WholeOr(t: Json, path: Str, value: Option<Json>, below: Outcome): Outcome {
    if path != [] then below
    else
      match value
      case Some(x) => Outcome(x, 0)
      case None => Outcome(t, 7)
  }

  lemma Branches(t: Json, patch: Json, op: Str, path: Str, cs: bool)
    requires Asks(patch, op, path, cs)
    ensures var value, from, o := Lookup(patch, VALUE, cs), Lookup(patch, FROM, cs), ApplyPatch(t, patch, cs);
            && (op == TEST ==> o == TestAt(t, path, value, cs))
            && (op == REMOVE ==> o == if path == [] then RootRemoved else RemoveAt(t, path, cs))
            && (op == REPLACE ==> o == WholeOr(t, path, value, ReplaceAt(t, path, value, cs)))
            && (op == ADD ==> o == WholeOr(t, path, value, if value.None? then Outcome(t, 7) else AddAt(t, path, value.value, cs)))
            && (op == MOVE ==> o == MoveTo(t, path, from, cs))
            && (op == COPY ==> o == CopyTo(t, path, from, cs))
  {
    hide DecodeOperation, TestAt, RemoveAt, ReplaceAt, AddAt, MoveTo, CopyTo, Lookup, ADD, REMOVE, REPLACE, MOVE, COPY, TEST;
    OpsApart();
    AskedDecoded(patch, op, path, cs);
  }

  lemma AskedDecoded(patch: Json, op: Str, path: Str, cs: bool)
    requires Asks(patch, op, path, cs)
    ensures DecodeOperation(patch, cs) == Some(op)
  {
    hide Lookup, ADD, REMOVE, REPLACE, MOVE, COPY, TEST;
  }

  // ---- the whole document ----

  /** add and replace of the whole document (sections 4.1 and 4.3): it becomes the value, if there is one. */
  lemma ValueAtRoot(t: Json, patch: Json, op: Str, cs: bool)
    requires Asks(patch, op, [], cs) && (op == ADD || op == REPLACE)
    ensures match Lookup(patch, VALUE, cs)
            case Some(x) => ApplyPatch(t, patch, cs) == Outcome(x, 0)
            case None => Refused(ApplyPatch(t, patch, cs), t)
  {
    hide ApplyPatch, Lookup, ADD, REPLACE;
    Branches(t, patch, op, [], cs);
  }

  /** Nothing can be moved or copied to the root; what was to be moved is gone from where it was. */
  lemma NothingToRoot(t: Json, patch: Json, op: Str, from: Str, cs: bool)
    requires Asks(patch, op, [], cs) && Lookup(patch, FROM, cs) == Some(String(from))
    ensures op == COPY ==> Refused(ApplyPatch(t, patch, cs), t)
    ensures op == MOVE ==> Refused(ApplyPatch(t, patch, cs), AfterDetach(t, from, cs))
  {
    hide ApplyPatch, Lookup, Detach, Locate, COPY, MOVE;
    Branches(t, patch, op, [], cs);
  }

  /** What detaching leaves of the document. */
  function AfterDetach(t: Json, pointer: Str, cs: bool): Json {
    match Detach(t, pointer, cs)
    case None => t
    case Some(d) => d.rest
  }

  // ---- patches that are none ----

  /** A patch without a pointer, or without an operation, is refused. */
  lemma MalformedRefused(t: Json, patch: Json, cs: bool)
    requires forall op, path :: !Asks(patch, op, path, cs)
    ensures Refused(ApplyPatch(t, patch, cs), t)
    ensures ApplyPatch(t, patch, cs).status == match Lookup(patch, PATH, cs) case Some(String(_)) => 3 case _ => 2
  {
    hide Lookup;
    match (Lookup(patch, PATH, cs), Lookup(patch, OP, cs)) {
      case (Some(String(path)), Some(String(op))) => assert !Asks(patch, op, path, cs);
      case (_, _) =>
    }
  }

  /** So is a move or copy that does not say from where, and an add or test that does not say what. */
  lemma IncompleteRefused(t: Json, patch: Json, op: Str, path: Str, cs: bool)
    requires Asks(patch, op, path, cs)
    requires var from := Lookup(patch, FROM, cs);
             || ((op == MOVE || op == COPY) && (from.None? || !from.value.String?))
             || ((op == ADD || op == TEST) && Lookup(patch, VALUE, cs).None?)
    ensures Refused(ApplyPatch(t, patch, cs), t)
  {
    hide ApplyPatch, Lookup, Detach, Locate, AddAt, CompareJson, ADD, COPY, MOVE, TEST;
    Branches(t, patch, op, path, cs);
  }

  // ---- what the status tells ----

  /** There is a string to move or copy from, and something there. */
  predicate Fetches(t: Json, op: Str, from: Option<Json>, cs: bool) {
    match from
    case Some(String(pointer)) => if op == MOVE then Detach(t, pointer, cs).Some? else Locate(t, pointer, cs).Some?
    case _ => false
  }

  /** Nothing is at the location that is to be emptied. */
  predicate NothingThere(t: Json, op: Str, path: Str, cs: bool) {
    (op == REMOVE || op == REPLACE) && path != [] && Detach(t, path, cs).None?
  }

  /** Each status has its own reason; 9, 10 and 11 say that the value could not be added where the path points. */
  predicate Tells(status: int, t: Json, op: Str, path: Str, value: Option<Json>, from: Option<Json>, cs: bool) {
    && status in {0, 1, 4, 5, 7, 9, 10, 11, 13}
    && (status == 1 ==> op == TEST)
    && (status == 4 <==> (op == MOVE || op == COPY) && from.None?)
    && (status == 5 <==> (op == MOVE || op == COPY) && from.Some? && !Fetches(t, op, from, cs))
    && (status == 7 <==> (op == ADD || op == REPLACE) && value.None? && !NothingThere(t, op, path, cs))
    && (status == 13 <==> NothingThere(t, op, path, cs))
  }

  lemma StatusTells(t: Json, patch: Json, op: Str, path: Str, cs: bool)
    requires Asks(patch, op, path, cs) && ApplyPatch(t, patch, cs).Outcome?
    ensures Tells(ApplyPatch(t, patch, cs).status, t, op, path, Lookup(patch, VALUE, cs), Lookup(patch, FROM, cs), cs)
  {
    hide ApplyPatch, Lookup, Tells, TestAt, RemoveAt, ReplaceAt, MoveTo, CopyTo, AddAt, ADD, COPY, MOVE, TEST, REPLACE, REMOVE;
    OpsApart();
    Branches(t, patch, op, path, cs);
    var value, from := Lookup(patch, VALUE, cs), Lookup(patch, FROM, cs);
    if op == MOVE || op == COPY {
      FetchTells(t, op, path, value, from, cs);
    } else if op == REMOVE || op == REPLACE {
      DetachTells(t, op, path, value, from, cs);
    } else {
      AddOrTestTells(t, op, path, value, from, cs);
    }
  }

  lemma FetchTells(t: Json, op: Str, path: Str, value: Option<Json>, from: Option<Json>, cs: bool)
    requires op == MOVE || op == COPY
    ensures Tells((if op == MOVE then MoveTo(t, path, from, cs) else CopyTo(t, path, from, cs)).status, t, op, path, value, from, cs)
  {
    hide Detach, Locate, AddAt, ADD, COPY, MOVE, TEST, REPLACE, REMOVE;
    OpsApart();
    AddStatus(path, cs);
  }

  lemma DetachTells(t: Json, op: Str, path: Str, value: Option<Json>, from: Option<Json>, cs: bool)
    requires op == REMOVE || op == REPLACE
    ensures op == REMOVE && path != [] ==> Tells(RemoveAt(t, path, cs).status, t, op, path, value, from, cs)
    ensures op == REPLACE ==> Tells(WholeOr(t, path, value, ReplaceAt(t, path, value, cs)).status, t, op, path, value, from, cs)
  {
    hide Detach, AddAt, ADD, COPY, MOVE, TEST, REPLACE, REMOVE;
    OpsApart();
    AddStatus(path, cs);
  }

  lemma AddOrTestTells(t: Json, op: Str, path: Str, value: Option<Json>, from: Option<Json>, cs: bool)
    requires op == ADD || op == TEST
    ensures op == ADD ==>
              Tells(WholeOr(t, path, value, if value.None? then Outcome(t, 7) else AddAt(t, path, value.value, cs)).status, t, op, path, value, from, cs)
    ensures op == TEST ==> Tells(TestAt(t, path, value, cs).status, t, op, path, value, from, cs)
  {
    hide Detach, AddAt, CompareJson, Locate, ADD, COPY, MOVE, TEST, REPLACE, REMOVE;
    OpsApart();
    AddStatus(path, cs);
  }

  lemma AddStatus(path: Str, cs: bool)
    ensures forall t, x :: AddAt(t, path, x, cs).Outcome? && AddAt(t, path, x, cs).status in {0, 9, 10, 11}
  {
  }

  /** Adding tells a parent that is missing or no container from an index past the end and a token that is none. */
  lemma AddTells(t: Json, path: Str, x: Json, cs: bool)
    ensures var o := AddAt(t, path, x, cs);
            && (o.status == 11 ==> exists parent, token :: AddTo(t, path, parent, token, cs) && parent.Array? && DecodeIndex(token) == None)
            && (o.status == 10 ==> exists parent, token ::
                  AddTo(t, path, parent, token, cs) && parent.Array? && DecodeIndex(token).Some? && DecodeIndex(token).value > |parent.items|)
            && (o.status == 9 ==> forall parent, token :: AddTo(t, path, parent, token, cs) ==> !parent.Array? && !parent.Object?)
  {
    hide Locate, DecodeToken, DecodeIndex, AddHere;
    match LastSlash(path)
    case None =>
    case Some(cut) =>
      var pos := Locate(t, path[..cut], cs);
      if pos.Some? {
        assert AddTo(t, path, NodeAt(t, pos.value), DecodeToken(path[cut + 1..]), cs);
        HereTells(NodeAt(t, pos.value), DecodeToken(path[cut + 1..]), x, cs);
      }
  }

  lemma HereTells(parent: Json, token: Str, x: Json, cs: bool)
    ensures match AddHere(parent, token, x, cs)
            case Added(_) => true
            case Failed(status) =>
              && (status == 11 ==> parent.Array? && DecodeIndex(token) == None)
              && (status == 10 ==> parent.Array? && DecodeIndex(token).Some? && DecodeIndex(token).value > |parent.items|)
              && (status == 9 ==> !parent.Array? && !parent.Object?)
  {
    hide DecodeIndex;
  }

  /** The parent that a path names, and the un-escaped token after it. */
  predicate AddTo(t: Json, path: Str, parent: Json, token: Str, cs: bool) {
    match LastSlash(path)
    case None => false
    case Some(cut) =>
      var pos := Locate(t, path[..cut], cs);
      pos.Some? && parent == NodeAt(t, pos.value) && token == DecodeToken(path[cut + 1..])
  }

  // ---- what a failure leaves ----

  /** The pointer of the location that the operation empties before it adds anything. */
  function EmptiedFirst(patch: Json, op: Str, path: Str, cs: bool): Option<Str> {
    if op == REPLACE then Some(path)
    else if op == MOVE then
      match Lookup(patch, FROM, cs)
      case Some(String(from)) => Some(from)
      case _ => None
    else None
  }

  /** An operation that fails leaves the document as it was, members reordered by `test`; but replace and move may have detached first. */
  lemma FailureLeaves(t: Json, patch: Json, op: Str, path: Str, cs: bool)
    requires Asks(patch, op, path, cs)
    requires ApplyPatch(t, patch, cs).Outcome? && ApplyPatch(t, patch, cs).status != 0
    ensures var doc, emptied := ApplyPatch(t, patch, cs).doc, EmptiedFirst(patch, op, path, cs);
            || doc == t
            || (op == TEST && BagOf(doc) == BagOf(t))
            || (emptied.Some? && doc == AfterDetach(t, emptied.value, cs))
  {
    hide ApplyPatch, Lookup, Detach, Locate, AddAt, TestAt, BagOf, ADD, COPY, MOVE, TEST, REPLACE, REMOVE;
    Branches(t, patch, op, path, cs);
    AddLeaves(t, path, cs);
    if op == TEST { TestReorders(t, path, Lookup(patch, VALUE, cs), cs); }
    if EmptiedFirst(patch, op, path, cs).Some? {
      AddLeaves(AfterDetach(t, EmptiedFirst(patch, op, path, cs).value, cs), path, cs);
    }
  }

  lemma AddLeaves(t: Json, path: Str, cs: bool)
    ensures forall x :: AddAt(t, path, x, cs).Outcome? && (AddAt(t, path, x, cs).status != 0 ==> AddAt(t, path, x, cs).doc == t)
  {
  }

  lemma TestReorders(t: Json, path: Str, value: Option<Json>, cs: bool)
    ensures var o := TestAt(t, path, value, cs); o.Outcome? && BagOf(o.doc) == BagOf(t)
  {
    hide CompareJson, BagOf;
    var pos := Locate(t, path, cs);
    if pos.Some? && value.Some? {
      CompareOnlyReorders(NodeAt(t, pos.value), value.value, cs);
      BagAt(t, pos.value, CompareJson(NodeAt(t, pos.value), value.value, cs).a);
    }
  }

  /** A tree in which one subtree is reordered is reordered. */
  lemma {:induction false} BagAt(t: Json, pos: Position, x: Json)
    requires IsPosition(t, pos) && BagOf(x) == BagOf(NodeAt(t, pos))
    ensures BagOf(PutAt(t, pos, x)) == BagOf(t)
    decreases |pos|
  {
    if pos != [] {
      var c := Child(t, pos[0]);
      BagAt(c, pos[1..], x);
      BagChild(t, pos[0], PutAt(c, pos[1..], x));
    }
  }

  lemma BagChild(t: Json, i: nat, x: Json)
    requires i < ChildCount(t) && BagOf(x) == BagOf(Child(t, i))
    ensures BagOf(WithChild(t, i, x)) == BagOf(t)
  {
    match t {
      case Array(items) => BagItemsAt(items, i, x);
      case Object(ms) => BagMembersAt(ms, i, x);
    }
  }

  lemma BagItemsAt(items: seq<Json>, i: nat, x: Json)
    requires i < |items| && BagOf(x) == BagOf(items[i])
    ensures BagItems(items[i := x]) == BagItems(items)
  {
    hide BagOf;
  }

  lemma BagMembersAt(ms: seq<Member<Json>>, i: nat, x: Json)
    requires i < |ms| && BagOf(x) == BagOf(ms[i].value)
    ensures BagMembers(ms[i := Member(ms[i].key, x)]) == BagMembers(ms)
  {
    hide BagOf;
    assert BagList(ms[i := Member(ms[i].key, x)]) == BagList(ms);
  }

  // ---- patch documents ----

  /** A patch document that is no array is refused. */
  lemma NoPatchesRefused(t: Json, patches: Json, cs: bool)
    requires !patches.Array?
    ensures Refused(ApplyPatches(t, patches, cs), t) && ApplyPatches(t, patches, cs).status == 1
  {
  }

  /** The first patch that fails decides the status, and the later ones are not applied. */
  lemma {:induction false} StopsAtFailure(t: Json, done: seq<Json>, patch: Json, rest: seq<Json>, doc: Json, cs: bool)
    requires ApplyPatches(t, Array(done), cs) == Outcome(doc, 0)
    requires ApplyPatch(doc, patch, cs).Outcome? && ApplyPatch(doc, patch, cs).status != 0
    ensures ApplyPatches(t, Array(done + [patch] + rest), cs) == ApplyPatch(doc, patch, cs)
    decreases |done|
  {
    hide ApplyPatch;
    var all := done + [patch] + rest;
    if done == [] {
      assert all[0] == patch;
    } else {
      assert all[0] == done[0] && all[1..] == done[1..] + [patch] + rest;
      StopsAtFailure(ApplyPatch(t, done[0], cs).doc, done[1..], patch, rest, doc, cs);
    }
  }
}

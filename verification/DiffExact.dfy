/** Exactly which operations a generated patch has: at every location, those that the two values differ by. */
module DiffExact {
  import opened Bytes
  import opened Json
  import opened Sorting
  import opened Pointers
  import opened Locating
  import opened Comparing
  import opened Patching
  import opened PatchMeaning
  import opened Diffing
  import opened DiffMeaning
  import Rfc = Rfc6902

  // ---- the location that a pointer names ----

  lemma {:induction false} TokensOfPointer(q: Rfc.Path)
    ensures TokensOf(PointerOf(q)) == q
  {
    if q != [] {
      PointerStep(q);
      FirstTokenIs(q[0], PointerOf(q[1..]));
      TokensOfPointer(q[1..]);
    }
  }

  // ---- the operations of a patch document at a location ----

  /** The patch is this operation, at this location. */
  predicate Is(patch: Json, op: Str, q: Rfc.Path, cs: bool) {
    Lookup(patch, OP, cs) == Some(String(op)) &&
    match Lookup(patch, PATH, cs)
    case Some(String(s)) => Rfc.SameTokens(TokensOf(s), q, cs)
    case _ => false
  }

  /** What the patch gives as a value. */
  function Given(patch: Json, cs: bool): Option<Value> {
    match Lookup(patch, VALUE, cs)
    case Some(x) => Some(Meaning(x, cs))
    case None => None
  }

  /** The values of all such operations, in order. */
  function Found(patches: seq<Json>, op: Str, q: Rfc.Path, cs: bool): seq<Option<Value>> {
    if patches == [] then []
    else (if Is(patches[0], op, q, cs) then [Given(patches[0], cs)] else []) + Found(patches[1..], op, q, cs)
  }

  // ---- what two values differ by ----

  /** Two values that no operation inside them can make the same. */
  predicate Unlike(v: Value, w: Value) {
    v != w && !(v.VArray? && w.VArray?) && !(v.VObject? && w.VObject?)
  }

  function Somes(vs: seq<Value>): (r: seq<Option<Value>>)
    ensures |r| == |vs| && forall i | 0 <= i < |r| :: r[i] == Some(vs[i])
  {
    seq(|vs|, i requires 0 <= i < |vs| => Some(vs[i]))
  }

  function Nones(n: nat): (r: seq<Option<Value>>)
    ensures |r| == n && forall i | 0 <= i < n :: r[i] == None
  {
    seq(n, _ => None)
  }

  /**
   * The operations at `q` that make `v` into `w`: a replacement of unlike values; the removal of a member that only
   * `v` has; the addition of one that only `w` has; at an array, one removal at the end of the new one for every
   * element that it is shorter, and the additions of the elements that it is longer, in order.
   */
  function Wanted(v: Value, w: Value, op: Str, q: Rfc.Path, cs: bool): seq<Option<Value>>
    decreases |q|
  {
    if q == [] then (if op == REPLACE && Unlike(v, w) then [Some(w)] else [])
    else
      match (v, w)
      case (VObject(m), VObject(n)) => WantedMember(m, n, op, q, cs)
      case (VArray(a), VArray(b)) => WantedItems(0, a, b, op, q, cs)
      case (_, _) => []
  }

  /** The same for the members of two objects. */
  function WantedMember(m: map<Str, Value>, n: map<Str, Value>, op: Str, q: Rfc.Path, cs: bool): seq<Option<Value>>
    requires q != []
    decreases |q|, 0
  {
    var k := Fold(q[0], cs);
    if k in m && k in n then Wanted(m[k], n[k], op, q[1..], cs)
    else if |q| == 1 && op == REMOVE && k in m then [None]
    else if |q| == 1 && op == ADD && k in n then [Some(n[k])]
    else []
  }

  /** The same for the elements of two arrays from an index on. */
  function WantedItems(index: nat, a: seq<Value>, b: seq<Value>, op: Str, q: Rfc.Path, cs: bool): seq<Option<Value>>
    requires q != []
    decreases |q|, 0
  {
    if |q| == 1 && op == ADD && q[0] == ['-' as int] then (if |a| < |b| then Somes(b[|a|..]) else [])
    else
      match RfcIndex(q[0])
      case Some(i) =>
        if index <= i < index + |a| && i < index + |b| then Wanted(a[i - index], b[i - index], op, q[1..], cs)
        else if |q| == 1 && op == REMOVE && i == index + |b| && |b| < |a| then Nones(|a| - |b|)
        else []
      case None => []
  }

  // ---- single patches ----

  lemma {:induction false} FoundConcat(a: seq<Json>, b: seq<Json>, op: Str, q: Rfc.Path, cs: bool)
    ensures Found(a + b, op, q, cs) == Found(a, op, q, cs) + Found(b, op, q, cs)
  {
    hide Is, Given;
    if a == [] {
      assert a + b == b;
    } else {
      var first := if Is(a[0], op, q, cs) then [Given(a[0], cs)] else [];
      assert (a + b)[0] == a[0] && (a + b)[1..] == a[1..] + b;
      FoundConcat(a[1..], b, op, q, cs);
      Reassociated(first, Found(a[1..], op, q, cs), Found(b, op, q, cs));
    }
  }

  lemma Reassociated<T>(a: seq<T>, b: seq<T>, c: seq<T>)
    ensures a + (b + c) == (a + b) + c
  {
  }

  /** A composed patch is at its own location. */
  lemma ComposedIs(op: Str, ks: Rfc.Path, suffix: Option<Str>, value: Option<Json>, target: Rfc.Path, asked: Str, cs: bool)
    ensures var patch := ComposePatch(op, PointerOf(ks), suffix, value);
            var q := if suffix.Some? then ks + [suffix.value] else ks;
            && (Is(patch, asked, target, cs) <==> asked == op && Rfc.SameTokens(q, target, cs))
            && Given(patch, cs) == (if value.Some? then Some(Meaning(value.value, cs)) else None)
  {
    hide Lookup, ComposePatch, Meaning;
    ComposedLookup(op, PointerOf(ks), suffix, value, cs);
    if suffix.Some? { PathOf(ks, suffix.value); }
    TokensOfPointer(if suffix.Some? then ks + [suffix.value] else ks);
  }

  lemma FoundOne(patch: Json, rest: seq<Json>, op: Str, q: Rfc.Path, cs: bool)
    ensures Found([patch] + rest, op, q, cs) == (if Is(patch, op, q, cs) then [Given(patch, cs)] else []) + Found(rest, op, q, cs)
  {
    assert ([patch] + rest)[1..] == rest;
  }

  // ---- locations ----

  /** The location is at `ks` or below. */
  predicate Below(target: Rfc.Path, ks: Rfc.Path, cs: bool) {
    |ks| <= |target| && Rfc.SameTokens(ks, target[..|ks|], cs)
  }

  lemma BelowChild(target: Rfc.Path, ks: Rfc.Path, k: Str, cs: bool)
    ensures Below(target, ks + [k], cs) <==> Below(target, ks, cs) && |ks| < |target| && Fold(k, cs) == Fold(target[|ks|], cs)
  {
    var all := ks + [k];
    if |ks| < |target| {
      assert target[..|all|][..|ks|] == target[..|ks|];
      assert target[..|all|][|ks|] == target[|ks|];
      if Rfc.SameTokens(all, target[..|all|], cs) {
        forall i | 0 <= i < |ks| ensures Fold(ks[i], cs) == Fold(target[..|ks|][i], cs) { assert all[i] == ks[i]; }
      }
    }
  }

  lemma AtItself(target: Rfc.Path, ks: Rfc.Path, cs: bool)
    ensures Rfc.SameTokens(ks, target, cs) <==> Below(target, ks, cs) && |target| == |ks|
  {
    if |target| == |ks| { assert target[..|ks|] == target; }
  }

  // ---- the generated operations are those that are wanted ----

  /** The operations wanted at a location, seen from `ks`, where the two values are. */
  function Seen(v: Value, w: Value, op: Str, ks: Rfc.Path, target: Rfc.Path, cs: bool): seq<Option<Value>> {
    if Below(target, ks, cs) then Wanted(v, w, op, target[|ks|..], cs) else []
  }

  lemma {:induction false} Exact(ks: Rfc.Path, from: Json, to: Json, op: Str, target: Rfc.Path, cs: bool)
    requires Distinct(from, cs) && Distinct(to, cs)
    ensures Found(CreatePatches(PointerOf(ks), from, to, cs), op, target, cs) == Seen(Meaning(from, cs), Meaning(to, cs), op, ks, target, cs)
    decreases from, 2
  {
    hide PatchItems, PatchMembers, WantedItems, WantedMember, Found, ComposePatch, Is, Below, PointerOf, MeaningItems, MeaningMembers;
    FoundNone(op, target, cs);
    if from.Array? && to.Array? {
      ItemsExact(ks, 0, from.items, to.items, op, target, cs);
      BelowLength(target, ks, cs);
    } else if from.Object? && to.Object? {
      ObjectExact(ks, from, to, op, target, cs);
      BelowLength(target, ks, cs);
    } else {
      LeafPatches(PointerOf(ks), from, to, cs);
      ReplacedExact(ks, to, op, target, cs);
      LeafWanted(Meaning(from, cs), Meaning(to, cs), op, ks, target, cs);
    }
  }

  lemma LeafPatches(path: Str, from: Json, to: Json, cs: bool)
    requires !(from.Array? && to.Array?) && !(from.Object? && to.Object?)
    ensures CreatePatches(path, from, to, cs) == if Meaning(from, cs) == Meaning(to, cs) then [] else [ComposePatch(REPLACE, path, None, Some(to))]
    ensures !(Meaning(from, cs).VArray? && Meaning(to, cs).VArray?) && !(Meaning(from, cs).VObject? && Meaning(to, cs).VObject?)
  {
    hide ComposePatch, MeaningItems, MeaningMembers;
    if from.String? && to.String? { CompareEqual(from.s, to.s); }
  }

  lemma LeafWanted(v: Value, w: Value, op: Str, ks: Rfc.Path, target: Rfc.Path, cs: bool)
    requires !(v.VArray? && w.VArray?) && !(v.VObject? && w.VObject?)
    ensures Seen(v, w, op, ks, target, cs) == if v != w && op == REPLACE && Below(target, ks, cs) && |target| == |ks| then [Some(w)] else []
  {
    hide Below;
    BelowLength(target, ks, cs);
  }

  lemma FoundNone(op: Str, q: Rfc.Path, cs: bool)
    ensures Found([], op, q, cs) == []
  {
  }

  lemma BelowLength(target: Rfc.Path, ks: Rfc.Path, cs: bool)
    ensures Below(target, ks, cs) ==> |ks| <= |target|
  {
  }

  lemma ReplacedExact(ks: Rfc.Path, to: Json, op: Str, target: Rfc.Path, cs: bool)
    ensures var found := Found([ComposePatch(REPLACE, PointerOf(ks), None, Some(to))], op, target, cs);
            found == if op == REPLACE && Below(target, ks, cs) && |target| == |ks| then [Some(Meaning(to, cs))] else []
  {
    hide ComposePatch, Is, Below, PointerOf, Meaning, Given;
    var patch := ComposePatch(REPLACE, PointerOf(ks), None, Some(to));
    ComposedIs(REPLACE, ks, None, Some(to), target, op, cs);
    AtItself(target, ks, cs);
    FoundOne(patch, [], op, target, cs);
    assert [patch] + [] == [patch];
  }

  /** One edit of a child, before other operations. */
  lemma EditExact(edit: Str, ks: Rfc.Path, k: Str, value: Option<Json>, rest: seq<Json>, op: Str, target: Rfc.Path, cs: bool)
    ensures var given := if value.Some? then Some(Meaning(value.value, cs)) else None;
            Found([ComposePatch(edit, PointerOf(ks), Some(k), value)] + rest, op, target, cs) ==
            (if op == edit && Below(target, ks, cs) && |target| == |ks| + 1 && Fold(k, cs) == Fold(target[|ks|], cs) then [given] else []) +
            Found(rest, op, target, cs)
  {
    hide ComposePatch, Is, Below, PointerOf, Meaning, Given;
    ComposedIs(edit, ks, Some(k), value, target, op, cs);
    AtItself(target, ks + [k], cs);
    BelowChild(target, ks, k, cs);
    FoundOne(ComposePatch(edit, PointerOf(ks), Some(k), value), rest, op, target, cs);
  }

  // ---- arrays ----

  function SeenItems(index: nat, a: seq<Value>, b: seq<Value>, op: Str, ks: Rfc.Path, target: Rfc.Path, cs: bool): seq<Option<Value>> {
    if |ks| < |target| && Below(target, ks, cs) then WantedItems(index, a, b, op, target[|ks|..], cs) else []
  }

  lemma IndexFolds(n: nat, token: Str, cs: bool)
    ensures Fold(Decimal(n), cs) == Fold(token, cs) <==> RfcIndex(token) == Some(n)
    ensures var dash: Str := ['-' as int]; Fold(dash, cs) == Fold(token, cs) <==> token == dash
    ensures RfcIndex(['-' as int]) == None
  {
    Rfc.DecimalIndex(n);
    if Fold(Decimal(n), cs) == Fold(token, cs) { Rfc.DigitsFold(Decimal(n), token, cs); }
    var dash: Str := ['-' as int];
    if Fold(dash, cs) == Fold(token, cs) { Rfc.DigitsFold(dash, token, cs); }
    if RfcIndex(token) == Some(n) { IndexIsDecimal(token); }
    assert !IsDigit(dash[0]);
  }

  lemma {:induction false} RemovedExact(ks: Rfc.Path, index: nat, from: seq<Json>, op: Str, target: Rfc.Path, cs: bool)
    ensures Found(RemoveItems(PointerOf(ks), index, from), op, target, cs) ==
            if op == REMOVE && Below(target, ks, cs) && |target| == |ks| + 1 && RfcIndex(target[|ks|]) == Some(index) then Nones(|from|) else []
  {
    hide ComposePatch, Found, Below, PointerOf, Meaning, RfcIndex, Decimal;
    FoundNone(op, target, cs);
    if from != [] {
      RemovedExact(ks, index, from[1..], op, target, cs);
      EditExact(REMOVE, ks, Decimal(index), None, RemoveItems(PointerOf(ks), index, from[1..]), op, target, cs);
      if |ks| < |target| { IndexFolds(index, target[|ks|], cs); }
      assert [None] + Nones(|from| - 1) == Nones(|from|);
    }
  }

  lemma {:induction false} AddedExact(ks: Rfc.Path, to: seq<Json>, op: Str, target: Rfc.Path, cs: bool)
    ensures Found(AddItems(PointerOf(ks), to), op, target, cs) ==
            if op == ADD && Below(target, ks, cs) && |target| == |ks| + 1 && target[|ks|] == ['-' as int] then Somes(MeaningItems(to, cs)) else []
  {
    hide ComposePatch, Found, Below, PointerOf, Meaning, Somes, RfcIndex, Decimal;
    FoundNone(op, target, cs);
    SomesOf(to, cs);
    if to != [] {
      AddedExact(ks, to[1..], op, target, cs);
      EditExact(ADD, ks, [DASH], Some(to[0]), AddItems(PointerOf(ks), to[1..]), op, target, cs);
      if |ks| < |target| { IndexFolds(0, target[|ks|], cs); }
    }
  }

  lemma SomesOf(to: seq<Json>, cs: bool)
    ensures Somes(MeaningItems(to, cs)) == if to == [] then [] else [Some(Meaning(to[0], cs))] + Somes(MeaningItems(to[1..], cs))
  {
    hide Meaning;
  }

  lemma {:induction false} ItemsExact(ks: Rfc.Path, index: nat, from: seq<Json>, to: seq<Json>, op: Str, target: Rfc.Path, cs: bool)
    requires (forall x | x in from :: Distinct(x, cs)) && (forall x | x in to :: Distinct(x, cs))
    ensures Found(PatchItems(PointerOf(ks), index, from, to, cs), op, target, cs) ==
            SeenItems(index, MeaningItems(from, cs), MeaningItems(to, cs), op, ks, target, cs)
    decreases from, 1
  {
    hide ComposePatch, Found, PointerOf, Meaning, CreatePatches, RemoveItems, AddItems, Wanted, Below;
    var path, a, b := PointerOf(ks), MeaningItems(from, cs), MeaningItems(to, cs);
    if from != [] && to != [] {
      var child := ks + [Decimal(index)];
      EncodedIndex(index);
      PathOf(ks, Decimal(index));
      FoundConcat(CreatePatches(PointerOf(child), from[0], to[0], cs), PatchItems(path, index + 1, from[1..], to[1..], cs), op, target, cs);
      assert from[0] in from && to[0] in to;
      Exact(child, from[0], to[0], op, target, cs);
      ItemsExact(ks, index + 1, from[1..], to[1..], op, target, cs);
      ItemSeen(index, a, b, op, ks, target, cs);
    } else {
      FoundConcat(RemoveItems(path, index, from), AddItems(path, to), op, target, cs);
      RemovedExact(ks, index, from, op, target, cs);
      AddedExact(ks, to, op, target, cs);
      OneListEmpty(index, a, b, op, ks, target, cs);
    }
  }

  lemma ItemSeen(index: nat, a: seq<Value>, b: seq<Value>, op: Str, ks: Rfc.Path, target: Rfc.Path, cs: bool)
    requires a != [] && b != []
    ensures Seen(a[0], b[0], op, ks + [Decimal(index)], target, cs) + SeenItems(index + 1, a[1..], b[1..], op, ks, target, cs) ==
            SeenItems(index, a, b, op, ks, target, cs)
  {
    hide Wanted, Below, Decimal, RfcIndex;
    BelowChild(target, ks, Decimal(index), cs);
    if |ks| < |target| {
      var q := target[|ks|..];
      assert q[1..] == target[|ks| + 1..];
      IndexFolds(index, target[|ks|], cs);
      if |a| < |b| { assert b[|a|..] == b[1..][|a| - 1..]; }
    }
  }

  lemma OneListEmpty(index: nat, a: seq<Value>, b: seq<Value>, op: Str, ks: Rfc.Path, target: Rfc.Path, cs: bool)
    requires a == [] || b == []
    ensures SeenItems(index, a, b, op, ks, target, cs) ==
            (if op == REMOVE && Below(target, ks, cs) && |target| == |ks| + 1 && RfcIndex(target[|ks|]) == Some(index) then Nones(|a|) else []) +
            (if op == ADD && Below(target, ks, cs) && |target| == |ks| + 1 && target[|ks|] == ['-' as int] then Somes(b) else [])
  {
    hide Wanted, Below, RfcIndex;
    assert ADD != REMOVE by { assert |ADD| == 3; }
    if |ks| < |target| { IndexFolds(index, target[|ks|], cs); }
    if a == [] { assert b[|a|..] == b; }
    assert Nones(0) == [] && Somes([]) == [];
  }

  // ---- objects ----

  function SeenMember(m: map<Str, Value>, n: map<Str, Value>, op: Str, ks: Rfc.Path, target: Rfc.Path, cs: bool): seq<Option<Value>> {
    if |ks| < |target| && Below(target, ks, cs) then WantedMember(m, n, op, target[|ks|..], cs) else []
  }

  lemma {:induction false} ObjectExact(ks: Rfc.Path, from: Json, to: Json, op: Str, target: Rfc.Path, cs: bool)
    requires from.Object? && to.Object? && Distinct(from, cs) && Distinct(to, cs)
    ensures Found(CreatePatches(PointerOf(ks), from, to, cs), op, target, cs) ==
            SeenMember(MeaningMembers(from.members, cs), MeaningMembers(to.members, cs), op, ks, target, cs)
    decreases from, 1
  {
    hide ComposePatch, Found, PointerOf, PatchMembers, WantedMember, Below, Sort;
    SortedSubtrees(from, cs);
    SortedSubtrees(to, cs);
    MembersExact(ks, from, Sort(from.members, cs), Sort(to.members, cs), op, target, cs);
  }

  lemma {:induction false} MembersExact(ks: Rfc.Path, top: Json, from: seq<Member<Json>>, to: seq<Member<Json>>, op: Str, target: Rfc.Path, cs: bool)
    requires (forall m | m in from :: m.value < top && Distinct(m.value, cs)) && (forall m | m in to :: Distinct(m.value, cs))
    requires Ascending(from, cs) && Ascending(to, cs)
    ensures Found(PatchMembers(PointerOf(ks), top, from, to, cs), op, target, cs) ==
            SeenMember(MeaningMembers(from, cs), MeaningMembers(to, cs), op, ks, target, cs)
    decreases top, 0, |from| + |to|
  {
    hide ComposePatch, Found, PointerOf, PatchMembers, CreatePatches, Wanted, Below, Meaning, MeaningMembers, Ascending, CompareKeys;
    var path := PointerOf(ks);
    MembersTurn(path, top, from, to, cs);
    if from == [] && to == [] {
      FoundNone(op, target, cs);
      NoMembersSeen(op, ks, target, cs);
    } else {
      var diff := HeadDiff(from, to, cs);
      HeadsApart(from, to, cs);
      if diff == 0 {
        var child := ks + [from[0].key];
        PathOf(ks, from[0].key);
        FoundConcat(CreatePatches(PointerOf(child), from[0].value, to[0].value, cs), PatchMembers(path, top, from[1..], to[1..], cs), op, target, cs);
        assert from[0] in from && to[0] in to;
        Exact(child, from[0].value, to[0].value, op, target, cs);
        MembersExact(ks, top, from[1..], to[1..], op, target, cs);
        BothSeen(MeaningMembers(from[1..], cs), MeaningMembers(to[1..], cs), from[0].key, Meaning(from[0].value, cs), Meaning(to[0].value, cs), op, ks, target, cs);
      } else if diff < 0 {
        MembersExact(ks, top, from[1..], to, op, target, cs);
        EditExact(REMOVE, ks, from[0].key, None, PatchMembers(path, top, from[1..], to, cs), op, target, cs);
        OnlyOldSeen(MeaningMembers(from[1..], cs), MeaningMembers(to, cs), from[0].key, Meaning(from[0].value, cs), op, ks, target, cs);
      } else {
        MembersExact(ks, top, from, to[1..], op, target, cs);
        EditExact(ADD, ks, to[0].key, Some(to[0].value), PatchMembers(path, top, from, to[1..], cs), op, target, cs);
        OnlyNewSeen(MeaningMembers(from, cs), MeaningMembers(to[1..], cs), to[0].key, Meaning(to[0].value, cs), op, ks, target, cs);
      }
    }
  }

  lemma NoMembersSeen(op: Str, ks: Rfc.Path, target: Rfc.Path, cs: bool)
    ensures SeenMember(MeaningMembers([], cs), MeaningMembers([], cs), op, ks, target, cs) == []
  {
  }

  /** The tails of two ascending lists, and where the name at the head does not occur. */
  lemma HeadsApart(from: seq<Member<Json>>, to: seq<Member<Json>>, cs: bool)
    requires Ascending(from, cs) && Ascending(to, cs) && (from != [] || to != [])
    ensures from != [] ==> Ascending(from[1..], cs) && (forall m | m in from[1..] :: m in from)
    ensures to != [] ==> Ascending(to[1..], cs) && (forall m | m in to[1..] :: m in to)
    ensures from != [] ==>
              var k := Fold(from[0].key, cs);
              && k !in MeaningMembers(from[1..], cs) && MeaningMembers(from, cs) == MeaningMembers(from[1..], cs)[k := Meaning(from[0].value, cs)]
              && (HeadDiff(from, to, cs) < 0 ==> k !in MeaningMembers(to, cs))
    ensures to != [] ==>
              var k := Fold(to[0].key, cs);
              && k !in MeaningMembers(to[1..], cs) && MeaningMembers(to, cs) == MeaningMembers(to[1..], cs)[k := Meaning(to[0].value, cs)]
              && (HeadDiff(from, to, cs) > 0 ==> k !in MeaningMembers(from, cs))
    ensures from != [] && to != [] && HeadDiff(from, to, cs) == 0 ==> Fold(from[0].key, cs) == Fold(to[0].key, cs)
  {
    hide Ascending;
    if from != [] {
      LeastName(from, cs);
      if HeadDiff(from, to, cs) < 0 { NotBelowFirst(to, from[0], cs); }
    }
    if to != [] {
      LeastName(to, cs);
      if from != [] {
        CompareAntisymmetric(Fold(from[0].key, cs), Fold(to[0].key, cs));
        CompareEqual(Fold(from[0].key, cs), Fold(to[0].key, cs));
      }
      if HeadDiff(from, to, cs) > 0 { NotBelowFirst(from, to[0], cs); }
    }
  }

  lemma BothSeen(m: map<Str, Value>, n: map<Str, Value>, key: Str, v: Value, w: Value, op: Str, ks: Rfc.Path, target: Rfc.Path, cs: bool)
    requires Fold(key, cs) !in m && Fold(key, cs) !in n
    ensures Seen(v, w, op, ks + [key], target, cs) + SeenMember(m, n, op, ks, target, cs) ==
            SeenMember(m[Fold(key, cs) := v], n[Fold(key, cs) := w], op, ks, target, cs)
  {
    hide Wanted, Below;
    BelowChild(target, ks, key, cs);
    if |ks| < |target| { assert target[|ks|..][1..] == target[|ks| + 1..]; }
  }

  lemma OnlyOldSeen(m: map<Str, Value>, n: map<Str, Value>, key: Str, v: Value, op: Str, ks: Rfc.Path, target: Rfc.Path, cs: bool)
    requires Fold(key, cs) !in m && Fold(key, cs) !in n
    ensures (if op == REMOVE && Below(target, ks, cs) && |target| == |ks| + 1 && Fold(key, cs) == Fold(target[|ks|], cs) then [None] else []) +
            SeenMember(m, n, op, ks, target, cs) == SeenMember(m[Fold(key, cs) := v], n, op, ks, target, cs)
  {
    hide Wanted, Below;
  }

  lemma OnlyNewSeen(m: map<Str, Value>, n: map<Str, Value>, key: Str, w: Value, op: Str, ks: Rfc.Path, target: Rfc.Path, cs: bool)
    requires Fold(key, cs) !in m && Fold(key, cs) !in n
    ensures (if op == ADD && Below(target, ks, cs) && |target| == |ks| + 1 && Fold(key, cs) == Fold(target[|ks|], cs) then [Some(w)] else []) +
            SeenMember(m, n, op, ks, target, cs) == SeenMember(m, n[Fold(key, cs) := w], op, ks, target, cs)
  {
    hide Wanted, Below;
    assert ADD != REMOVE by { assert |ADD| == 3; }
  }

  // ---- the theorems ----

  /** At every location, the generated operations of every kind are those by which the two trees differ. */
  lemma GeneratedExact(a: Json, b: Json, op: Str, q: Rfc.Path, cs: bool)
    requires Distinct(a, cs) && Distinct(b, cs)
    ensures GeneratePatches(a, b, cs).Array?
    ensures Found(GeneratePatches(a, b, cs).items, op, q, cs) == Wanted(Meaning(a, cs), Meaning(b, cs), op, q, cs)
  {
    hide Found, Wanted, Distinct, CreatePatches, Meaning;
    assert PointerOf([]) == [] && q[0..] == q && q[..0] == [];
    Exact([], a, b, op, q, cs);
  }

  /** An operation that removes, adds or replaces something. */
  ghost predicate Operation(patch: Json, cs: bool) {
    exists op, q :: op in {ADD, REMOVE, REPLACE} && Is(patch, op, q, cs)
  }

  lemma ComposedOperation(op: Str, ks: Rfc.Path, suffix: Option<Str>, value: Option<Json>, cs: bool)
    requires op in {ADD, REMOVE, REPLACE}
    ensures Operation(ComposePatch(op, PointerOf(ks), suffix, value), cs)
  {
    hide ComposePatch, Is;
    var q := if suffix.Some? then ks + [suffix.value] else ks;
    ComposedIs(op, ks, suffix, value, q, op, cs);
    assert Is(ComposePatch(op, PointerOf(ks), suffix, value), op, q, cs);
  }

  lemma {:induction false} AllOperations(ks: Rfc.Path, from: Json, to: Json, cs: bool)
    ensures forall p | p in CreatePatches(PointerOf(ks), from, to, cs) :: Operation(p, cs)
    decreases from, 2
  {
    hide PatchItems, PatchMembers, ComposePatch, Operation, PointerOf, Sort;
    ComposedOperation(REPLACE, ks, None, Some(to), cs);
    if from.Array? && to.Array? {
      ItemOperations(ks, 0, from.items, to.items, cs);
    } else if from.Object? && to.Object? {
      SortPermutes(from.members, cs);
      assert forall m | m in Sort(from.members, cs) :: m in multiset(from.members);
      MemberOperations(ks, from, Sort(from.members, cs), Sort(to.members, cs), cs);
    }
  }

  lemma {:induction false} ItemOperations(ks: Rfc.Path, index: nat, from: seq<Json>, to: seq<Json>, cs: bool)
    ensures forall p | p in PatchItems(PointerOf(ks), index, from, to, cs) :: Operation(p, cs)
    decreases from, 1
  {
    hide CreatePatches, ComposePatch, Operation, PointerOf, RemoveItems, AddItems;
    if from != [] && to != [] {
      EncodedIndex(index);
      PathOf(ks, Decimal(index));
      AllOperations(ks + [Decimal(index)], from[0], to[0], cs);
      ItemOperations(ks, index + 1, from[1..], to[1..], cs);
    } else {
      RemoveOperations(ks, index, from, cs);
      AddOperations(ks, to, cs);
    }
  }

  lemma {:induction false} RemoveOperations(ks: Rfc.Path, index: nat, from: seq<Json>, cs: bool)
    ensures forall p | p in RemoveItems(PointerOf(ks), index, from) :: Operation(p, cs)
  {
    hide ComposePatch, Operation, PointerOf;
    if from != [] {
      ComposedOperation(REMOVE, ks, Some(Decimal(index)), None, cs);
      RemoveOperations(ks, index, from[1..], cs);
    }
  }

  lemma {:induction false} AddOperations(ks: Rfc.Path, to: seq<Json>, cs: bool)
    ensures forall p | p in AddItems(PointerOf(ks), to) :: Operation(p, cs)
  {
    hide ComposePatch, Operation, PointerOf;
    if to != [] {
      ComposedOperation(ADD, ks, Some([DASH]), Some(to[0]), cs);
      AddOperations(ks, to[1..], cs);
    }
  }

  lemma {:induction false} MemberOperations(ks: Rfc.Path, top: Json, from: seq<Member<Json>>, to: seq<Member<Json>>, cs: bool)
    requires forall m | m in from :: m.value < top
    ensures forall p | p in PatchMembers(PointerOf(ks), top, from, to, cs) :: Operation(p, cs)
    decreases top, 0, |from| + |to|
  {
    hide ComposePatch, PointerOf, PatchMembers, CreatePatches, Operation, CompareKeys;
    MembersTurn(PointerOf(ks), top, from, to, cs);
    if from != [] || to != [] {
      var diff := HeadDiff(from, to, cs);
      if diff == 0 {
        PathOf(ks, from[0].key);
        AllOperations(ks + [from[0].key], from[0].value, to[0].value, cs);
        MemberOperations(ks, top, from[1..], to[1..], cs);
      } else if diff < 0 {
        ComposedOperation(REMOVE, ks, Some(from[0].key), None, cs);
        MemberOperations(ks, top, from[1..], to, cs);
      } else {
        ComposedOperation(ADD, ks, Some(to[0].key), Some(to[0].value), cs);
        MemberOperations(ks, top, from, to[1..], cs);
      }
    }
  }

  /** The two values differ at `q`, in the way in which the operation says. */
  predicate DifferAt(v: Value, w: Value, op: Str, q: Rfc.Path, x: Option<Value>, cs: bool) {
    || (op == REPLACE && Rfc.Get(v, q, cs).Some? && Rfc.Get(w, q, cs) == x && x.Some? && Unlike(Rfc.Get(v, q, cs).value, x.value))
    || (op == REMOVE && Rfc.Get(v, q, cs).Some? && Rfc.Get(w, q, cs) == None == x)
    || (op == ADD && Rfc.Get(v, q, cs) == None && Rfc.Get(w, q, cs) == x && x.Some?)
    || (op == ADD && q != [] && q[|q| - 1] == ['-' as int] && GrowsAt(v, w, q[..|q| - 1], x, cs))
  }

  /** The array at `p` is longer in `w`, and `x` is one of the elements there that `v` has no place for. */
  predicate GrowsAt(v: Value, w: Value, p: Rfc.Path, x: Option<Value>, cs: bool) {
    match (Rfc.Get(v, p, cs), Rfc.Get(w, p, cs))
    case (Some(VArray(a)), Some(VArray(b))) => |a| < |b| && x in Somes(b[|a|..])
    case (_, _) => false
  }

  lemma {:induction false} WantedDiffers(v: Value, w: Value, op: Str, q: Rfc.Path, x: Option<Value>, cs: bool)
    requires x in Wanted(v, w, op, q, cs)
    ensures DifferAt(v, w, op, q, x, cs)
    decreases |q|
  {
    hide WantedItems, GrowsAt;
    if q != [] {
      match (v, w) {
        case (VObject(m), VObject(n)) =>
          var k := Fold(q[0], cs);
          if k in m && k in n {
            WantedDiffers(m[k], n[k], op, q[1..], x, cs);
            DifferUnder(v, w, op, q, x, cs);
          } else {
            MemberDiffers(m, n, op, q, x, cs);
          }
        case (VArray(a), VArray(b)) => ItemDiffers(v, w, op, q, x, cs);
        case (_, _) =>
      }
    }
  }

  lemma MemberDiffers(m: map<Str, Value>, n: map<Str, Value>, op: Str, q: Rfc.Path, x: Option<Value>, cs: bool)
    requires q != [] && x in WantedMember(m, n, op, q, cs) && !(Fold(q[0], cs) in m && Fold(q[0], cs) in n)
    ensures DifferAt(VObject(m), VObject(n), op, q, x, cs)
  {
    hide Wanted, GrowsAt, Unlike, Rfc.Get;
    GetSingle(VObject(m), q, cs);
    GetSingle(VObject(n), q, cs);
  }

  lemma {:induction false} ItemDiffers(v: Value, w: Value, op: Str, q: Rfc.Path, x: Option<Value>, cs: bool)
    requires v.VArray? && w.VArray? && q != [] && x in WantedItems(0, v.items, w.items, op, q, cs)
    ensures DifferAt(v, w, op, q, x, cs)
    decreases |q|, 0
  {
    hide RfcIndex, Wanted, DifferAt, Somes;
    var a, b := v.items, w.items;
    if |q| == 1 && op == ADD && q[0] == ['-' as int] {
      EndDiffers(v, w, q, x, cs);
    } else {
      var i := RfcIndex(q[0]).value;
      if i < |a| && i < |b| {
        WantedDiffers(a[i], b[i], op, q[1..], x, cs);
        DifferUnder(v, w, op, q, x, cs);
      } else {
        assert op == REMOVE && |q| == 1 && i == |b| < |a| && x in Nones(|a| - |b|);
        TailDiffers(v, w, q, x, cs);
      }
    }
  }

  lemma EndDiffers(v: Value, w: Value, q: Rfc.Path, x: Option<Value>, cs: bool)
    requires v.VArray? && w.VArray? && |q| == 1 && q[0] == ['-' as int] && |v.items| < |w.items| && x in Somes(w.items[|v.items|..])
    ensures DifferAt(v, w, ADD, q, x, cs)
  {
    hide Somes, Unlike;
    assert q[..0] == [];
    assert GrowsAt(v, w, q[..0], x, cs);
  }

  lemma TailDiffers(v: Value, w: Value, q: Rfc.Path, x: Option<Value>, cs: bool)
    requires v.VArray? && w.VArray? && |q| == 1 && RfcIndex(q[0]) == Some(|w.items|) && |w.items| < |v.items| && x == None
    ensures DifferAt(v, w, REMOVE, q, x, cs)
  {
    hide GrowsAt, Unlike, Rfc.Get, RfcIndex;
    GetSingle(v, q, cs);
    GetSingle(w, q, cs);
  }

  lemma GetSingle(v: Value, q: Rfc.Path, cs: bool)
    requires |q| == 1
    ensures Rfc.Get(v, q, cs) == Rfc.ChildOf(v, q[0], cs)
  {
    hide Rfc.ChildOf;
    assert q == [q[0]];
    GetOne(v, q[0], cs);
  }

  lemma DifferUnder(v: Value, w: Value, op: Str, q: Rfc.Path, x: Option<Value>, cs: bool)
    requires q != [] && Rfc.ChildOf(v, q[0], cs).Some? && Rfc.ChildOf(w, q[0], cs).Some?
    requires DifferAt(Rfc.ChildOf(v, q[0], cs).value, Rfc.ChildOf(w, q[0], cs).value, op, q[1..], x, cs)
    ensures DifferAt(v, w, op, q, x, cs)
  {
    hide Unlike, Somes, Fold, RfcIndex, Rfc.ChildOf;
    if |q| > 1 {
      var p := q[..|q| - 1];
      assert p[0] == q[0] && p[1..] == q[1..][..|q| - 2];
    }
  }

  lemma {:induction false} GivenFound(patches: seq<Json>, p: Json, op: Str, q: Rfc.Path, cs: bool)
    requires p in patches && Is(p, op, q, cs)
    ensures Given(p, cs) in Found(patches, op, q, cs)
  {
    hide Is, Given;
    if p != patches[0] { GivenFound(patches[1..], p, op, q, cs); }
  }

  /** Every generated operation is at a location where the two trees differ in that way. */
  lemma GeneratedDiffer(a: Json, b: Json, patch: Json, cs: bool) returns (op: Str, q: Rfc.Path)
    requires Distinct(a, cs) && Distinct(b, cs) && patch in GeneratePatches(a, b, cs).items
    ensures Is(patch, op, q, cs) && DifferAt(Meaning(a, cs), Meaning(b, cs), op, q, Given(patch, cs), cs)
  {
    hide Is, Given, Found, Wanted, Distinct, CreatePatches, Meaning, DifferAt;
    assert PointerOf([]) == [];
    AllOperations([], a, b, cs);
    op, q :| op in {ADD, REMOVE, REPLACE} && Is(patch, op, q, cs);
    GivenFound(GeneratePatches(a, b, cs).items, patch, op, q, cs);
    GeneratedExact(a, b, op, q, cs);
    WantedDiffers(Meaning(a, cs), Meaning(b, cs), op, q, Given(patch, cs), cs);
  }

  lemma {:induction false} SameWantsNothing(v: Value, op: Str, q: Rfc.Path, cs: bool)
    ensures Wanted(v, v, op, q, cs) == []
    decreases |q|
  {
    if q != [] {
      match v {
        case VObject(m) => if Fold(q[0], cs) in m { SameWantsNothing(m[Fold(q[0], cs)], op, q[1..], cs); }
        case VArray(a) =>
          var i := RfcIndex(q[0]);
          if i.Some? && i.value < |a| { SameWantsNothing(a[i.value], op, q[1..], cs); }
        case _ =>
      }
    }
  }

  /** Two trees that mean different things differ somewhere. */
  lemma {:induction false} DifferentWant(a: Json, b: Json, cs: bool) returns (op: Str, q: Rfc.Path)
    requires Distinct(a, cs) && Distinct(b, cs) && Meaning(a, cs) != Meaning(b, cs)
    ensures Wanted(Meaning(a, cs), Meaning(b, cs), op, q, cs) != []
    decreases a, 1
  {
    hide MeaningItems, MeaningMembers, WantedItems, WantedMember, Distinct;
    if a.Array? && b.Array? {
      op, q := DifferentItems(a, b, cs);
    } else if a.Object? && b.Object? {
      op, q := DifferentMembers(a, b, cs);
    } else {
      op, q := REPLACE, [];
      LeafPatches([], a, b, cs);
    }
  }

  lemma {:induction false} DifferentItems(a: Json, b: Json, cs: bool) returns (op: Str, q: Rfc.Path)
    requires a.Array? && b.Array? && Distinct(a, cs) && Distinct(b, cs) && Meaning(a, cs) != Meaning(b, cs)
    ensures q != [] && Wanted(Meaning(a, cs), Meaning(b, cs), op, q, cs) != []
    decreases a, 0
  {
    hide Meaning;
    var v, w := MeaningItems(a.items, cs), MeaningItems(b.items, cs);
    if |v| < |w| {
      op, q := ADD, [['-' as int]];
      LengthsDiffer(v, w, cs);
    } else if |w| < |v| {
      op, q := REMOVE, [Decimal(|w|)];
      LengthsDiffer(v, w, cs);
    } else {
      ItemsMean(a, b, cs);
      var i :| 0 <= i < |v| && v[i] != w[i];
      assert a.items[i] in a.items && b.items[i] in b.items;
      var rest;
      op, rest := DifferentWant(a.items[i], b.items[i], cs);
      q := [Decimal(i)] + rest;
      WantedDown(v, w, i, op, rest, cs);
    }
    ItemsMean(a, b, cs);
  }

  lemma ItemsMean(a: Json, b: Json, cs: bool)
    requires a.Array? && b.Array?
    ensures Meaning(a, cs) == VArray(MeaningItems(a.items, cs)) && Meaning(b, cs) == VArray(MeaningItems(b.items, cs))
  {
  }

  lemma LengthsDiffer(v: seq<Value>, w: seq<Value>, cs: bool)
    ensures |v| < |w| ==> Wanted(VArray(v), VArray(w), ADD, [['-' as int]], cs) != []
    ensures |w| < |v| ==> Wanted(VArray(v), VArray(w), REMOVE, [Decimal(|w|)], cs) != []
  {
    assert ADD != REMOVE by { assert |ADD| == 3; }
    Rfc.DecimalIndex(|w|);
  }

  lemma WantedDown(v: seq<Value>, w: seq<Value>, i: nat, op: Str, rest: Rfc.Path, cs: bool)
    requires i < |v| && i < |w|
    ensures Wanted(VArray(v), VArray(w), op, [Decimal(i)] + rest, cs) == Wanted(v[i], w[i], op, rest, cs)
  {
    Rfc.DecimalIndex(i);
    IndexFolds(i, ['-' as int], cs);
    assert ([Decimal(i)] + rest)[1..] == rest;
  }

  lemma {:induction false} DifferentMembers(a: Json, b: Json, cs: bool) returns (op: Str, q: Rfc.Path)
    requires a.Object? && b.Object? && Distinct(a, cs) && Distinct(b, cs) && Meaning(a, cs) != Meaning(b, cs)
    ensures q != [] && Wanted(Meaning(a, cs), Meaning(b, cs), op, q, cs) != []
    decreases a, 0
  {
    hide Meaning, Wanted;
    var m, n := MeaningMembers(a.members, cs), MeaningMembers(b.members, cs);
    MembersMean(a, b, cs);
    if k :| k in m && k !in n {
      var i := KeyOrigin(a.members, k, cs);
      op, q := REMOVE, [a.members[i].key];
      OneSided(m, n, a.members[i].key, cs);
    } else if k :| k in n && k !in m {
      var j := KeyOrigin(b.members, k, cs);
      op, q := ADD, [b.members[j].key];
      OneSided(m, n, b.members[j].key, cs);
    } else {
      assert m.Keys == n.Keys;
      var k :| k in m && m[k] != n[k];
      var i := KeyOrigin(a.members, k, cs);
      var j := KeyOrigin(b.members, k, cs);
      MemberMeaning(a.members, i, cs);
      MemberMeaning(b.members, j, cs);
      assert a.members[i] in a.members && b.members[j] in b.members;
      var rest;
      op, rest := DifferentWant(a.members[i].value, b.members[j].value, cs);
      q := [a.members[i].key] + rest;
      MemberDown(m, n, a.members[i].key, op, rest, cs);
    }
  }

  lemma MembersMean(a: Json, b: Json, cs: bool)
    requires a.Object? && b.Object?
    ensures Meaning(a, cs) == VObject(MeaningMembers(a.members, cs)) && Meaning(b, cs) == VObject(MeaningMembers(b.members, cs))
  {
  }

  lemma OneSided(m: map<Str, Value>, n: map<Str, Value>, key: Str, cs: bool)
    ensures Fold(key, cs) in m && Fold(key, cs) !in n ==> Wanted(VObject(m), VObject(n), REMOVE, [key], cs) != []
    ensures Fold(key, cs) !in m && Fold(key, cs) in n ==> Wanted(VObject(m), VObject(n), ADD, [key], cs) != []
  {
    assert ADD != REMOVE by { assert |ADD| == 3; }
  }

  lemma MemberDown(m: map<Str, Value>, n: map<Str, Value>, key: Str, op: Str, rest: Rfc.Path, cs: bool)
    requires Fold(key, cs) in m && Fold(key, cs) in n
    ensures Wanted(VObject(m), VObject(n), op, [key] + rest, cs) == Wanted(m[Fold(key, cs)], n[Fold(key, cs)], op, rest, cs)
  {
    assert ([key] + rest)[1..] == rest;
  }

  /** There is nothing to do exactly between trees that mean the same. */
  lemma NothingGenerated(a: Json, b: Json, cs: bool)
    requires Distinct(a, cs) && Distinct(b, cs)
    ensures GeneratePatches(a, b, cs) == Array([]) <==> Meaning(a, cs) == Meaning(b, cs)
  {
    hide Is, Given, Found, Wanted, Distinct, CreatePatches, Meaning, DifferAt;
    var patches := GeneratePatches(a, b, cs).items;
    if Meaning(a, cs) == Meaning(b, cs) {
      if patches != [] {
        assert PointerOf([]) == [];
        AllOperations([], a, b, cs);
        assert patches[0] in patches;
        var op, q :| op in {ADD, REMOVE, REPLACE} && Is(patches[0], op, q, cs);
        GivenFound(patches, patches[0], op, q, cs);
        GeneratedExact(a, b, op, q, cs);
        SameWantsNothing(Meaning(a, cs), op, q, cs);
        assert false;
      }
    } else {
      var op, q := DifferentWant(a, b, cs);
      GeneratedExact(a, b, op, q, cs);
      FoundNone(op, q, cs);
    }
  }
}

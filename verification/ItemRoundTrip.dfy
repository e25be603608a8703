/** What the library is for: a difference taken between two trees of items turns a copy of the one into the other. */
module ItemRoundTrip {
  import opened Bytes
  import opened Json
  import opened Sorting
  import opened Pointers
  import opened ChildLists
  import opened ItemTrees
  import opened ItemWalks
  import opened ItemEdits
  import opened ItemComparing
  import opened ItemApplying
  import opened ItemMerging
  import opened ItemDiffing
  import opened ItemMergeDiff
  import opened ItemEquality
  import D = Diffing
  import P = Patching
  import M = Merging
  import C = Comparing
  import Diffs = DiffMeaning
  import Trips = PatchRoundTrip
  import Merges = MergeGenerate
  import MergeDiffs = MergeDiff

  /** `cJSONUtils_GeneratePatches` and `cJSONUtils_GeneratePatchesCaseSensitive` */
  method GeneratePatches(a: Item, b: Item, cs: bool, ghost s: Shape, ghost u: Shape)
    returns (patches: Item, ghost ps: Shape, ghost s': Shape, ghost u': Shape)
    requires Tree(s, false) && Tree(u, false) && s.item == a && u.item == b && Nodes(s) !! Nodes(u)
    modifies Nodes(s)`child, NodesAll(s.children)`next, NodesAll(s.children)`prev
    modifies Nodes(u)`child, NodesAll(u.children)`next, NodesAll(u.children)`prev
    ensures Tree(ps) && ps.item == patches && fresh(Nodes(ps)) && Kept(s, s') && Kept(u, u')
    ensures JsonOf(ps) == D.GeneratePatches(old(JsonOf(s)), old(JsonOf(u)), cs)
    ensures C.BagOf(JsonOf(s')) == C.BagOf(old(JsonOf(s))) && C.BagOf(JsonOf(u')) == C.BagOf(old(JsonOf(u)))
  {
    hide Tree, Forest, NodesAll, Nodes, Members, Values, JsonOf, BelowAll, Roots, D.CreatePatches, C.BagOf;
    TreeExists(s);
    TreeExists(u);
    NodesOf(s);
    NodesOf(u);
    patches, ps := CreateItem(ArrayItem, []);
    NodesOf(ps);
    ps, s', u' := CreatePatches(patches, [], a, b, cs, ps, s, u);
    NodesOf(ps);
    KindOf(ps);
  }

  // ---- generated patches neither test nor remove the root ----

  lemma ComposedRebuilds(op: Str, path: Str, suffix: Option<Str>, value: Option<Json>, cs: bool)
    requires op == P.ADD || op == P.REPLACE || (op == P.REMOVE && suffix.Some?)
    ensures Rebuilds(D.ComposePatch(op, path, suffix, value), cs)
  {
  }

  ghost predicate AllRebuild(patches: seq<Json>, cs: bool) {
    forall p | p in patches :: Rebuilds(p, cs)
  }

  lemma {:induction false} PatchesRebuild(path: Str, a: Json, b: Json, cs: bool)
    ensures AllRebuild(D.CreatePatches(path, a, b, cs), cs)
    decreases a, 1, 0
  {
    hide D.ComposePatch, Rebuilds, Sort, D.PatchItems, D.PatchMembers;
    ComposedRebuilds(P.REPLACE, path, None, Some(b), cs);
    if SameType(a, b) {
      match a {
        case Array(items) => ItemsRebuild(path, 0, items, b.items, cs);
        case Object(ms) =>
          C.SortedBag(ms, cs);
          MembersRebuild(path, a, Sort(ms, cs), Sort(b.members, cs), cs);
        case _ =>
      }
    }
  }

  lemma {:induction false} ItemsRebuild(path: Str, index: nat, a: seq<Json>, b: seq<Json>, cs: bool)
    ensures AllRebuild(D.PatchItems(path, index, a, b, cs), cs)
    decreases a
  {
    hide D.ComposePatch, Rebuilds, D.CreatePatches;
    if a != [] && b != [] {
      PatchesRebuild(path + [SLASH] + Decimal(index), a[0], b[0], cs);
      ItemsRebuild(path, index + 1, a[1..], b[1..], cs);
    } else {
      RemovesRebuild(path, index, a, cs);
      AddsRebuild(path, b, cs);
    }
  }

  lemma {:induction false} RemovesRebuild(path: Str, index: nat, a: seq<Json>, cs: bool)
    ensures AllRebuild(D.RemoveItems(path, index, a), cs)
  {
    hide D.ComposePatch, Rebuilds;
    if a != [] {
      ComposedRebuilds(P.REMOVE, path, Some(Decimal(index)), None, cs);
      RemovesRebuild(path, index, a[1..], cs);
    }
  }

  lemma {:induction false} AddsRebuild(path: Str, b: seq<Json>, cs: bool)
    ensures AllRebuild(D.AddItems(path, b), cs)
  {
    hide D.ComposePatch, Rebuilds;
    if b != [] {
      ComposedRebuilds(P.ADD, path, Some([DASH]), Some(b[0]), cs);
      AddsRebuild(path, b[1..], cs);
    }
  }

  lemma {:induction false} MembersRebuild(path: Str, top: Json, a: seq<Member<Json>>, b: seq<Member<Json>>, cs: bool)
    requires forall m | m in a :: m.value < top
    ensures AllRebuild(D.PatchMembers(path, top, a, b, cs), cs)
    decreases top, 0, |a| + |b|
  {
    hide D.ComposePatch, Rebuilds, D.CreatePatches, CompareStrings, Encode;
    if a != [] || b != [] {
      var diff := if a == [] then 1 else if b == [] then -1 else CompareKeys(a[0], b[0], cs);
      if diff == 0 {
        PatchesRebuild(path + [SLASH] + Encode(a[0].key), a[0].value, b[0].value, cs);
        MembersRebuild(path, top, a[1..], b[1..], cs);
      } else if diff < 0 {
        ComposedRebuilds(P.REMOVE, path, Some(a[0].key), None, cs);
        MembersRebuild(path, top, a[1..], b, cs);
      } else {
        ComposedRebuilds(P.ADD, path, Some(b[0].key), Some(b[0].value), cs);
        MembersRebuild(path, top, a, b[1..], cs);
      }
    }
  }

  // ---- the round trips ----

  /** A copy taken before the patches are generated, and then patched with them. */
  method PatchCopy(a: Item, b: Item, cs: bool, ghost s: Shape, ghost u: Shape)
    returns (status: int, copy: Item, ghost r: Shape, ghost s': Shape, ghost u': Shape)
    requires Tree(s) && Tree(u) && s.item == a && u.item == b && Nodes(s) !! Nodes(u)
    modifies Nodes(s)`child, NodesAll(s.children)`next, NodesAll(s.children)`prev
    modifies Nodes(u)`child, NodesAll(u.children)`next, NodesAll(u.children)`prev
    ensures Tree(r) && r.item == copy && fresh(Nodes(r)) && Kept(s, s') && Kept(u, u')
    ensures P.ApplyPatches(old(JsonOf(s)), D.GeneratePatches(old(JsonOf(s)), old(JsonOf(u)), cs), cs) == P.Outcome(JsonOf(r), status)
    ensures C.BagOf(JsonOf(s')) == C.BagOf(old(JsonOf(s))) && C.BagOf(JsonOf(u')) == C.BagOf(old(JsonOf(u)))
  {
    hide Tree, Forest, NodesAll, Nodes, Members, Values, JsonOf, BelowAll, Roots, D.CreatePatches, C.BagOf, P.ApplyPatches, Rebuilds;
    TreeExists(s);
    TreeExists(u);
    NodesOf(s);
    NodesOf(u);
    Loosen(s);
    Loosen(u);
    PatchesRebuild([], JsonOf(s), JsonOf(u), cs);
    copy, r := Duplicate(a, true, s);
    NodesOf(r);
    TreeExists(r);
    var patches;
    ghost var ps;
    patches, ps, s', u' := GeneratePatches(a, b, cs, s, u);
    NodesOf(s');
    NodesOf(u');
    TreeExists(s');
    TreeExists(u');
    status, r := ApplyPatches(copy, patches, cs, r, ps);
  }

  /**
   * A patch document generated between two trees, applied to a copy of the first one taken before,
   * succeeds and gives the second one up to the order of members; `cJSON_Compare` says so as well.
   */
  method PatchRoundTrip(a: Item, b: Item, cs: bool, ghost s: Shape, ghost u: Shape, ghost names: iset<Str>)
    returns (status: int, copy: Item, same: bool, ghost r: Shape, ghost s': Shape, ghost u': Shape)
    requires Tree(s) && Tree(u) && s.item == a && u.item == b && Nodes(s) !! Nodes(u)
    requires Diffs.AllStable(names) && (cs ==> Diffs.NoCaseTwins(names))
    requires Diffs.Fit(JsonOf(s), names, cs) && Diffs.Fit(JsonOf(u), names, cs)
    modifies Nodes(s)`child, NodesAll(s.children)`next, NodesAll(s.children)`prev
    modifies Nodes(u)`child, NodesAll(u.children)`next, NodesAll(u.children)`prev
    ensures status == 0 && same && Tree(r) && r.item == copy && fresh(Nodes(r)) && Kept(s, s') && Kept(u, u')
    ensures Distinct(JsonOf(r), cs) && Meaning(JsonOf(r), cs) == Meaning(old(JsonOf(u)), cs)
    ensures C.BagOf(JsonOf(s')) == C.BagOf(old(JsonOf(s))) && C.BagOf(JsonOf(u')) == C.BagOf(old(JsonOf(u)))
  {
    hide Tree, Forest, NodesAll, Nodes, Members, Values, JsonOf, BelowAll, Roots, D.CreatePatches, C.BagOf, P.ApplyPatches, Meaning, Distinct;
    ghost var v, w := JsonOf(s), JsonOf(u);
    Trips.RoundTrip(v, w, names, cs);
    FitDistinct(w, names, cs);
    TreeExists(s);
    TreeExists(u);
    NodesOf(u);
    status, copy, r, s', u' := PatchCopy(a, b, cs, s, u);
    NodesOf(u');
    Loosen(r);
    C.SameBagSameMeaning(w, JsonOf(u'), cs);
    C.CompareDeepExact(JsonOf(r), JsonOf(u'), cs);
    TreeExists(r);
    TreeExists(s');
    TreeExists(u');
    same := CompareItems(copy, b, cs, r, u');
  }

  lemma FitDistinct(v: Json, names: iset<Str>, cs: bool)
    requires Diffs.Fit(v, names, cs)
    ensures Distinct(v, cs)
  {
  }

  /** A merge patch generated between two trees, merged into a copy of the first one taken before. */
  method MergeCopy(a: Item, b: Item, cs: bool, ghost s: Shape, ghost u: Shape)
    returns (patched: bool, result: Item, ghost r: Shape, ghost s': Shape, ghost u': Shape)
    requires Tree(s) && Tree(u) && s.item == a && u.item == b && Nodes(s) !! Nodes(u)
    modifies Nodes(s)`child, NodesAll(s.children)`next, NodesAll(s.children)`prev
    modifies Nodes(u)`child, NodesAll(u.children)`next, NodesAll(u.children)`prev
    ensures Tree(r) && r.item == result && fresh(Nodes(r)) && Kept(s, s') && Kept(u, u')
    ensures match M.GenerateMerge(old(JsonOf(s)), old(JsonOf(u)), cs)
            case None => !patched && JsonOf(r) == old(JsonOf(s))
            case Some(p) => patched && JsonOf(r) == M.MergePatch(Some(old(JsonOf(s))), p, cs)
    ensures C.BagOf(JsonOf(s')) == C.BagOf(old(JsonOf(s))) && C.BagOf(JsonOf(u')) == C.BagOf(old(JsonOf(u)))
  {
    hide Tree, Forest, NodesAll, Nodes, Members, Values, JsonOf, BelowAll, Roots, M.GenerateMerge, C.BagOf, M.MergePatch;
    TreeExists(s);
    TreeExists(u);
    NodesOf(s);
    NodesOf(u);
    Loosen(s);
    Loosen(u);
    result, r := Duplicate(a, true, s);
    NodesOf(r);
    TreeExists(r);
    var patch;
    ghost var q;
    patch, q, s', u' := GenerateMergePatch(a, b, cs, s, u);
    patched := patch != null;
    if patched {
      NodesOf(s');
      NodesOf(u');
      TreeExists(s');
      TreeExists(u');
      NewItem(r);
      result, r := MergePatch(result, patch, cs, r, q);
    }
  }

  /**
   * For names that both case modes order alike there is no patch exactly between equal objects, and
   * otherwise the result is the second tree, up to the order of members, exactly when the difference
   * can be expressed without null.
   */
  method MergeRoundTrip(a: Item, b: Item, cs: bool, ghost s: Shape, ghost u: Shape, ghost names: iset<Str>)
    returns (patched: bool, result: Item, ghost r: Shape, ghost s': Shape, ghost u': Shape)
    requires Tree(s) && Tree(u) && s.item == a && u.item == b && Nodes(s) !! Nodes(u)
    requires Merges.OrdersAgree(names) && Merges.KeysIn(JsonOf(s), names) && Merges.KeysIn(JsonOf(u), names)
    requires Distinct(JsonOf(s), true) && Distinct(JsonOf(u), true)
    modifies Nodes(s)`child, NodesAll(s.children)`next, NodesAll(s.children)`prev
    modifies Nodes(u)`child, NodesAll(u.children)`next, NodesAll(u.children)`prev
    ensures Tree(r) && r.item == result && fresh(Nodes(r)) && Kept(s, s') && Kept(u, u')
    ensures var v, w := old(JsonOf(s)), old(JsonOf(u));
            && (!patched <==> v.Object? && w.Object? && Meaning(v, true) == Meaning(w, true))
            && (Distinct(JsonOf(r), true) && Meaning(JsonOf(r), true) == Meaning(w, true) <==>
                !patched || MergeDiffs.Recoverable(Meaning(v, true), Meaning(w, true)))
    ensures C.BagOf(JsonOf(s')) == C.BagOf(old(JsonOf(s))) && C.BagOf(JsonOf(u')) == C.BagOf(old(JsonOf(u)))
  {
    hide Tree, Forest, NodesAll, Nodes, Members, Values, JsonOf, BelowAll, Roots, M.GenerateMerge, C.BagOf, M.MergePatch, Meaning, Distinct;
    Merges.MergeRoundTrip(JsonOf(s), JsonOf(u), names, cs);
    patched, result, r, s', u' := MergeCopy(a, b, cs, s, u);
  }
}

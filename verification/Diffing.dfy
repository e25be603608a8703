/** Generating JSON patches: `create_patches` of cJSON_Utils, as a pure function. */
module Diffing {
  import opened Bytes
  import opened Json
  import opened Sorting
  import opened Pointers
  import opened Patching

  /** `compose_patch`, with the value already duplicated. */
  function ComposePatch(op: Str, path: Str, suffix: Option<Str>, value: Option<Json>): Json {
    var full := match suffix case None => path case Some(s) => path + [SLASH] + Encode(s);
    Object([Member(OP, String(op)), Member(PATH, String(full))] +
           match value case None => [] case Some(x) => [Member(VALUE, x)])
  }

  /** `create_patches` */
  function CreatePatches(path: Str, from: Json, to: Json, cs: bool): seq<Json>
    decreases from, 1, 0
  {
    if !SameType(from, to) then [ComposePatch(REPLACE, path, None, Some(to))]
    else
      match from
      case Number(n) => if n == to.n then [] else [ComposePatch(REPLACE, path, None, Some(to))]
      case String(s) => if Compare(s, to.s) == 0 then [] else [ComposePatch(REPLACE, path, None, Some(to))]
      case Array(items) => PatchItems(path, 0, items, to.items, cs)
      case Object(ms) =>
        SortPermutes(ms, cs);
        assert forall m | m in Sort(ms, cs) :: m in multiset(ms);
        PatchMembers(path, from, Sort(ms, cs), Sort(to.members, cs), cs)
      case _ => []
  }

  /** The three array loops: elements of both, left-over elements of `from`, new elements of `to`. */
  function PatchItems(path: Str, index: nat, from: seq<Json>, to: seq<Json>, cs: bool): seq<Json>
    decreases from
  {
    if from != [] && to != [] then
      CreatePatches(path + [SLASH] + Decimal(index), from[0], to[0], cs) + PatchItems(path, index + 1, from[1..], to[1..], cs)
    else
      RemoveItems(path, index, from) + AddItems(path, to)
  }

  function RemoveItems(path: Str, index: nat, from: seq<Json>): seq<Json> {
    if from == [] then []
    else [ComposePatch(REMOVE, path, Some(Decimal(index)), None)] + RemoveItems(path, index, from[1..])
  }

  function AddItems(path: Str, to: seq<Json>): seq<Json> {
    if to == [] then []
    else [ComposePatch(ADD, path, Some([DASH]), Some(to[0]))] + AddItems(path, to[1..])
  }

  /** The object loop: a merge of two sorted member lists. */
  function PatchMembers(path: Str, ghost top: Json, from: seq<Member<Json>>, to: seq<Member<Json>>, cs: bool): seq<Json>
    requires forall m | m in from :: m.value < top
    decreases top, 0, |from| + |to|
  {
    if from == [] && to == [] then []
    else
      var diff := if from == [] then 1 else if to == [] then -1 else CompareKeys(from[0], to[0], cs);
      if diff == 0 then
        CreatePatches(path + [SLASH] + Encode(from[0].key), from[0].value, to[0].value, cs)
        + PatchMembers(path, top, from[1..], to[1..], cs)
      else if diff < 0 then
        [ComposePatch(REMOVE, path, Some(from[0].key), None)] + PatchMembers(path, top, from[1..], to, cs)
      else
        [ComposePatch(ADD, path, Some(to[0].key), Some(to[0].value))] + PatchMembers(path, top, from, to[1..], cs)
  }

  /** `cJSONUtils_GeneratePatches` and `cJSONUtils_GeneratePatchesCaseSensitive` */
  function GeneratePatches(from: Json, to: Json, cs: bool): Json {
    Array(CreatePatches([], from, to, cs))
  }
}

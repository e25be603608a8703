/** Applying JSON patches: `apply_patch` of cJSON_Utils on trees, as pure functions. */
module Patching {
  import opened Bytes
  import opened Json
  import opened Pointers
  import opened Decoding
  import opened Locating
  import opened Comparing

  const OP: Str := [111, 112]                        // "op"
  const PATH: Str := [112, 97, 116, 104]             // "path"
  const VALUE: Str := [118, 97, 108, 117, 101]       // "value"
  const FROM: Str := [102, 114, 111, 109]            // "from"
  const ADD: Str := [97, 100, 100]                   // "add"
  const REMOVE: Str := [114, 101, 109, 111, 118, 101]       // "remove"
  const REPLACE: Str := [114, 101, 112, 108, 97, 99, 101]   // "replace"
  const MOVE: Str := [109, 111, 118, 101]            // "move"
  const COPY: Str := [99, 111, 112, 121]             // "copy"
  const TEST: Str := [116, 101, 115, 116]            // "test"

  /** `strrchr(s, '/')` */
  function LastSlash(s: Str): (r: Option<nat>)
    ensures r.Some? ==> r.value < |s| && s[r.value] == SLASH && SLASH !in s[r.value + 1..]
    ensures r.None? ==> SLASH !in s
  {
    if s == [] then None
    else
      match LastSlash(s[1..])
      case Some(i) => Some(i + 1)
      case None => if s[0] == SLASH then Some(0) else None
  }

  /** `get_object_item` on any item; only objects have named children. */
  function Lookup(t: Json, name: Str, cs: bool): Option<Json> {
    match t
    case Object(ms) =>
      var i := FindKey(ms, name, cs);
      if i < |ms| then Some(ms[i].value) else None
    case _ => None
  }

  // ---- list edits at one parent ----

  datatype Detached = Detached(rest: Json, item: Json)

  /** The end of `detach_path`: by index from an array, and always without regard to case from an object. */
  function DetachHere(parent: Json, token: Str): Option<Detached> {
    match parent
    case Array(items) =>
      (match DecodeIndex(token)
       case Some(i) => if i < |items| then Some(Detached(Array(Without(items, i)), items[i])) else None
       case None => None)
    case Object(ms) =>
      var i := FindKey(ms, token, false);
      if i < |ms| then Some(Detached(Object(Without(ms, i)), ms[i].value)) else None
    case _ => None
  }

  datatype Added = Added(parent: Json) | Failed(status: int)

  /** The end of `apply_patch`: append, insert, or delete any member of the name and append. */
  function AddHere(parent: Json, token: Str, x: Json, cs: bool): Added {
    match parent
    case Array(items) =>
      if token == [DASH] then Added(Array(items + [x]))
      else
        (match DecodeIndex(token)
         case None => Failed(11)
         case Some(i) => if i <= |items| then Added(Array(Inserted(items, i, x))) else Failed(10))
    case Object(ms) =>
      var i := FindKey(ms, token, cs);
      Added(Object((if i < |ms| then Without(ms, i) else ms) + [Member(token, x)]))
    case _ => Failed(9)
  }

  // ---- whole documents ----

  /** `detach_path` */
  function Detach(t: Json, path: Str, cs: bool): Option<Detached> {
    match LastSlash(path)
    case None => None
    case Some(cut) =>
      match Locate(t, path[..cut], cs)
      case None => None
      case Some(pos) =>
        match DetachHere(NodeAt(t, pos), DecodeToken(path[cut + 1..]))
        case None => None
        case Some(d) => Some(Detached(PutAt(t, pos, d.rest), d.item))
  }

  /** The document and the returned status; a removed root is an item of invalid type. */
  datatype Outcome = Outcome(doc: Json, status: int) | RootRemoved

  /** From "Now, just add value to path" to the end of `apply_patch`. */
  function AddAt(t: Json, path: Str, x: Json, cs: bool): Outcome {
    match LastSlash(path)
    case None => Outcome(t, 9)
    case Some(cut) =>
      match Locate(t, path[..cut], cs)
      case None => Outcome(t, 9)
      case Some(pos) =>
        match AddHere(NodeAt(t, pos), DecodeToken(path[cut + 1..]), x, cs)
        case Added(p) => Outcome(PutAt(t, pos, p), 0)
        case Failed(status) => Outcome(t, status)
  }

  function RemoveAt(t: Json, path: Str, cs: bool): Outcome {
    match Detach(t, path, cs)
    case None => Outcome(t, 13)
    case Some(d) => Outcome(d.rest, 0)
  }

  function ReplaceAt(t: Json, path: Str, value: Option<Json>, cs: bool): Outcome {
    match Detach(t, path, cs)
    case None => Outcome(t, 13)
    case Some(d) =>
      match value
      case None => Outcome(d.rest, 7)
      case Some(x) => AddAt(d.rest, path, x, cs)
  }

  /** The string of a "from" member; an item of another type has none. */
  function FromPointer(from: Json): Option<Str> {
    if from.String? then Some(from.s) else None
  }

  function MoveTo(t: Json, path: Str, from: Option<Json>, cs: bool): Outcome {
    if from.None? then Outcome(t, 4)
    else
      match FromPointer(from.value)
      case None => Outcome(t, 5)
      case Some(pointer) =>
        match Detach(t, pointer, cs)
        case None => Outcome(t, 5)
        case Some(d) => AddAt(d.rest, path, d.item, cs)
  }

  function CopyTo(t: Json, path: Str, from: Option<Json>, cs: bool): Outcome {
    if from.None? then Outcome(t, 4)
    else
      match FromPointer(from.value)
      case None => Outcome(t, 5)
      case Some(pointer) =>
        match Locate(t, pointer, cs)
        case None => Outcome(t, 5)
        case Some(pos) => AddAt(t, path, NodeAt(t, pos), cs)
  }

  /** The test operation; the comparison may reorder members at the tested location. */
  function TestAt(t: Json, path: Str, value: Option<Json>, cs: bool): Outcome {
    match (Locate(t, path, cs), value)
    case (Some(pos), Some(x)) =>
      var r := CompareJson(NodeAt(t, pos), x, cs);
      Outcome(PutAt(t, pos, r.a), if r.same then 0 else 1)
    case (_, _) => Outcome(t, 1)
  }

  /** `decode_patch_operation`, None for INVALID. */
  function DecodeOperation(patch: Json, cs: bool): Option<Str> {
    match Lookup(patch, OP, cs)
    case Some(String(op)) => if op in {ADD, REMOVE, REPLACE, MOVE, COPY, TEST} then Some(op) else None
    case _ => None
  }

  /** `apply_patch` */
  function ApplyPatch(t: Json, patch: Json, cs: bool): Outcome {
    match Lookup(patch, PATH, cs)
    case Some(String(path)) =>
      var value := Lookup(patch, VALUE, cs);
      (match DecodeOperation(patch, cs)
       case None => Outcome(t, 3)
       case Some(op) =>
         if op == TEST then TestAt(t, path, value, cs)
         else if path == [] && op == REMOVE then RootRemoved
         else if path == [] && (op == REPLACE || op == ADD) then
           if value.Some? then Outcome(value.value, 0) else Outcome(t, 7)
         else if op == REMOVE then RemoveAt(t, path, cs)
         else if op == REPLACE then ReplaceAt(t, path, value, cs)
         else if op == MOVE then MoveTo(t, path, Lookup(patch, FROM, cs), cs)
         else if op == COPY then CopyTo(t, path, Lookup(patch, FROM, cs), cs)
         else if value.Some? then AddAt(t, path, value.value, cs)
         else Outcome(t, 7))
    case _ => Outcome(t, 2)
  }

  /** The loop of `cJSONUtils_ApplyPatches` over the patches in order; it stops at the first failure. */
  function ApplyAll(t: Json, patches: seq<Json>, cs: bool): Outcome
    decreases |patches|
  {
    if patches == [] then Outcome(t, 0)
    else
      match ApplyPatch(t, patches[0], cs)
      case Outcome(doc, 0) => ApplyAll(doc, patches[1..], cs)
      case other => other
  }

  /** `cJSONUtils_ApplyPatches` and `cJSONUtils_ApplyPatchesCaseSensitive` */
  function ApplyPatches(t: Json, patches: Json, cs: bool): Outcome {
    if patches.Array? then ApplyAll(t, patches.items, cs) else Outcome(t, 1)
  }
}

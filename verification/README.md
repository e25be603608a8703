# cJSON, the Unity heap and the CRC utility: a verified model

This project models the parts of the repository that compute something hard, and proves what they are for:

* `assets/cJSON/cJSON_Utils.c`: JSON Pointer (RFC 6901), JSON Patch (RFC 6902), JSON Merge Patch (RFC 7396),
  the in-place mergesort of member lists and the sort-based comparison.
* `assets/cJSON/cJSON.c`: the recursive-descent parser, the printer with its growing buffer, `cJSON_Minify`,
  child lists, `cJSON_Duplicate` and `cJSON_Compare`.
* `assets/Unity/extras/memory/src/unity_memory.c`: the bump heap (`UNITY_EXCLUDE_STDLIB_MALLOC`).
* `HW10-crc32/src/main.c`: the table-driven, batched CRC-32.

`dafny verify dfyconfig.toml` checks everything.

## How it is laid out

| layer | modules |
|---|---|
| values and names | `Bytes`, `Json` (trees, and `Meaning`: the same tree with its objects read as maps) |
| pointers | `Pointers`, `Decoding` (un-escaping in a buffer), `Locating` (positions, and the pointer of a position) |
| comparing | `Sorting`, `Comparing` |
| patches | `Rfc6902` (what the RFC prescribes, on meanings), `OtherMembers` (when another member than the one named does as well), `Patching`, `PatchMeaning`, `Operations`, `PatchFailures` (the root, malformed patches, what a failure leaves), `Diffing`, `DiffMeaning`, `DiffExact` (which operations are generated), `PatchRoundTrip` |
| merge patches | `Merging`, `MergeMeaning`, `MergeDiff`, `MergeGenerate` |
| text, read | `Escapes`, `Spellings`, `Parsing`, `ParseBuffers` (the cursor, numbers and strings as they are read), `Layouts` (JSON texts as concrete syntax), `Reading`, `Grammar` (all that the parser takes, as a relation of stretches of text and values), `Acceptance`, `Refusals` (where a text is refused) |
| text, written | `Rendering`, `Printing` (the printer as it runs), `PrintParse`, `PrintedSpace` (the white space of a print, read off its bytes), `Minifying` (in place), `Minified`, `MinifyExact`, `MinifyPrints`, `MinifyComments` |
| linked items | `ChildLists`, `ListSorting`, `ItemTrees` (trees of items, `JsonOf`: the value they stand for), `ItemPaths` (one subtree changes, the rest stays) |
| the library on linked items | `ItemWalks`, `ItemPointers`, `ItemEdits`, `ItemPatching`, `ItemApplying`, `ItemTesting`, `ItemMerging`, `ItemSorting`, `ItemComparing`, `ItemEquality`, `ItemDiffing`, `ItemMergeDiff`, `ItemParsing`, `ItemRoundTrip` |
| allocator, CRC | `BumpHeap`, `BumpRuns` (whole runs of it), `Crc32` |

The functions on values say what a step computes, and the theorems about RFC 6901, 6902 and 7396 are proved about them.
Where the C code works step by step on memory (linked items, text buffers, byte arrays, the bump heap, the CRC loops),
the model is a class or a method with the same fields, loops and branches, proved equal to the function of what was
there before. So the theorems hold of the items themselves; `ItemRoundTrip` states the two main ones there.

A tree of items is given by a `Shape`: which item stands where. `Tree(s)` says that the links at every level are as the
shape says and that no item stands in two places; `Tree(s, false)` leaves out that heads point back to their tails,
which `sort_list` does not restore.

Strings and keys are NUL-free byte strings and numbers are 32-bit integers. `cs` is the case sensitivity flag.
`Fold` puts a name in lower case when it is off, so that names which the code takes for equal have one form.

## Results that hold exactly

Several properties hold of the code only under a condition; each is proved with its exact condition.

* Generating a patch and applying it to a copy taken before gives the new tree, for all trees over a set of names, if
  and only if every name survives `decode_pointer_inplace` (that loop writes an unescaped `/` one place too far and does
  not move plain characters) and, in the case sensitive mode, no two names differ in case only (`detach_path` always
  looks up without case).
* The same for merge patches: the new tree comes back whenever RFC 7396 can express the difference, if and only if
  `strcmp` and the case insensitive order agree on the names, because the walk over the two sorted lists always uses
  `strcmp`. In the case sensitive mode this is so one object down, where the generator goes on without case.
* Each patch operation is the operation of RFC 6902 at the locations where the library acts, which are not always those
  it is given: the last token of a pointer is un-escaped in place (which spoils every name that is not stable, in either
  case mode), and `remove`, `replace` and `move` take the first member of a name in whatever case. For all
  targets below the root whose tokens at arrays are read as RFC 6901 reads them, each operation conforms exactly under
  these conditions:
  * `add` and `copy`: the last token is stable, or its parent is no object, or the name and the spoilt name both hold
    the added value already;
  * `remove`: the lookup of the un-escaped name in whatever case finds what the lookup of the name in the caller's case
    mode finds;
  * `replace`: both lookups of the un-escaped name agree, and the lookup of the name finds the same, or both names hold
    the value already;
  * `move`, to a stable name, when what is taken is what was asked for: unless a location is moved into itself (names
    compared in the case mode), it is an element of an array, and the next element, which slides into its place, can
    take it in. When another member is taken (`MoveTakesTwin` is such a patch): only if the target is not legal, or
    neither member can go there, or both hold the same and the target replaces a member that holds their object. To a
    name that is not stable: `SpoiltAlike` and `RenamesAlike` are the conditions.
* A generated patch has, at every location and of every kind, exactly the operations by which the two trees differ there,
  and none between trees that mean the same.
* `add` and `replace` at the root make the document the value; nothing can be moved or copied there. A patch without
  pointer or operation is refused and changes nothing.
* The parser takes exactly the texts of a grammar and gives the values they spell, with containers nested at most 1000
  deep. The grammar is wider than JSON: any byte but a backslash and the closing quote in strings, four bytes of any kind
  after `\u`, numbers as `strtod` takes them, and white space of all bytes up to 32.
* The formatted print is the unformatted one, which has no white space outside its literals, with new lines, tabs and
  spaces put in where the neighbouring bytes and the open brackets say.
* Printing and parsing again gives the same tree if and only if its containers nest at most 1000 deep.
* `cJSON_Minify` takes away exactly the white space, however it is placed between the tokens, if and only if no closing
  quote follows an escaped backslash: `minify_string` takes such a quote for an escaped one. For the formatted print of a
  tree this says: no string or key ends in a backslash, or one string does and only closing brackets come after it.
* A preallocated buffer suffices if and only if it has two bytes more than the text. The comment in
  `assets/cJSON/cJSON.h:165` asks for five more; the code needs no more than two.
* The CRC utility gives a result if and only if there is a remainder after the whole batches or an empty part of the
  file can be mapped.

## Model

| member | source | states |
|---|---|---|
| Pointers.CompareEncoded | assets/cJSON/cJSON_Utils.c:120-154 | on an escaped key followed by the end or another token, the pointer comparison answers exactly whether name and key are equal in the chosen case mode: the escaping is injective |
| Pointers.ComparePointersExact | assets/cJSON/cJSON_Utils.c:120-154 | on every pointer, well escaped or not, the comparison answers exactly whether its first token is well escaped and, un-escaped as RFC 6901 says, is the name in the chosen case mode |
| Pointers.NamesToken | assets/cJSON/cJSON_Utils.c:120-154 | the loop with a cursor in each string answers as the recursive comparison does |
| Pointers.EncodeStringAsPointer | assets/cJSON/cJSON_Utils.c:173-196 | the loop writes the escaped string and its terminator from its start on, and nothing before |
| Pointers.DecodeIndexExact | assets/cJSON/cJSON_Utils.c:274-299 | the digit loop reads a token as the array index of RFC 6901 section 4, or refuses it, if and only if the token is one of those listed by `IndexAsRfc` |
| Pointers.DecodeIndexReads | assets/cJSON/cJSON_Utils.c:274-299 | what it reads every other token as: the empty one as 0, and one that begins with a digit and goes on with any characters from '0' on as a 64-bit number with these for digits |
| Pointers.DecodeArrayIndex | assets/cJSON/cJSON_Utils.c:274-299 | the digit loop, with `size_t` wrapping around, gives the specified index or refusal |
| Pointers.DecimalRoundTrip | assets/cJSON/cJSON_Utils.c:226-233 | the printed index of an element is read back as that index, for every index that fits `size_t` |
| Decoding.DecodePointerInPlace | assets/cJSON/cJSON_Utils.c:359-390 | the loop on the array leaves what the specification of its cursor writes says, byte for byte |
| Decoding.DecodeExact | assets/cJSON/cJSON_Utils.c:359-390 | escaping a key and decoding it in place gives the key back if and only if the key is stable: no slash, and every character but tildes already in its place |
| Decoding.DecodedFolds | assets/cJSON/cJSON_Utils.c:359-390 | a key that is not stable comes back as another name in the case insensitive mode too |
| Decoding.BadEscapeStays | assets/cJSON/cJSON_Utils.c:359-390 | a token whose first escape is neither `~0` nor `~1` is left as it is |
| ItemWalks.GetObjectItem | assets/cJSON/cJSON.c:1880-1918 | the walk along the members ends at the first of the name, or in NULL |
| ItemWalks.GetItemFromPointer | assets/cJSON/cJSON_Utils.c:301-346 | the walk down the items ends at the item whose position the recursive lookup of the pointer gives, or in NULL if that finds nothing |
| Locating.FollowPointer | assets/cJSON/cJSON_Utils.c:198-259 | following the pointer spelled for a position leads to that position if and only if every step to it is the first of its name |
| Locating.SpelledTokens | assets/cJSON/cJSON_Utils.c:198-259 | taken apart and un-escaped as RFC 6901 says, the pointer spelled for a position gives the names and indices on the way there |
| ItemPointers.FindPointerFromObjectTo | assets/cJSON/cJSON_Utils.c:198-259 | the search finds every item of the tree and no other, and spells the way to it |
| ItemPointers.FindAndFollow | assets/cJSON/cJSON_Utils.c:198-259 | finding the pointer of an item and following it case sensitively gives back that very item if and only if every step to it is the first of its name, and so always if names are distinct |
| Locating.DistinctIsFirst | assets/cJSON/cJSON_Utils.c:198-259 | with distinct keys, whatever characters they contain, every step is the first of its name, so the round trip holds for every node |
| Locating.MalformedFindsNothing | assets/cJSON/cJSON_Utils.c:301-346 | a token that is not well escaped finds no member of any object |
| Locating.NoSlashStays | assets/cJSON/cJSON_Utils.c:301-346 | the lookup stays at the root exactly for pointers that do not begin with a slash |
| Sorting.SortCorrect | assets/cJSON/cJSON_Utils.c:484-593 | the mergesort returns a permutation of the members in non-decreasing order of name |
| Sorting.SortMeaning | assets/cJSON/cJSON_Utils.c:595-602 | sorting an object's members does not change what the object means |
| ListSorting.SortList | assets/cJSON/cJSON_Utils.c:484-593 | on the linked nodes: the sort terminates, the links visit the same nodes in sorted order and end in NULL, and every node but the head points back to the one before |
| ListSorting.SortedNodesCorrect | assets/cJSON/cJSON_Utils.c:484-593 | the order in which the nodes are left is a permutation of them, non-decreasing by name |
| ListSorting.MergeLists | assets/cJSON/cJSON_Utils.c:530-592 | the merge loop and the appending of the rest relink two lists into their merge |
| ItemSorting.SortObject | assets/cJSON/cJSON_Utils.c:595-602 | on a tree of items: the members are the sorted members, every subtree stays what it is |
| Comparing.CompareJsonExact | assets/cJSON/cJSON_Utils.c:604-690 | for trees with distinct keys the sort-then-walk comparison answers whether the two trees mean the same |
| Comparing.CompareDeepExact | assets/cJSON/cJSON.c:2981-3104 | so does the quadratic comparison by lookup |
| Comparing.ComparisonsAgree | assets/cJSON/cJSON_Utils.c:604-690 | the two comparisons give the same answer, and are reflexive, symmetric and transitive through meanings |
| Comparing.CompareOnlyReorders | assets/cJSON/cJSON_Utils.c:604-690 | on every pair of trees, distinct keys or not, the comparison only permutes members: nothing is lost or invented at any depth |
| Comparing.CompareKeepsMeaning | assets/cJSON/cJSON_Utils.c:604-690 | what the comparison leaves of trees with distinct keys means what the trees meant |
| ItemComparing.CompareJson | assets/cJSON/cJSON_Utils.c:604-690 | on two trees of items: the answer and both trees are left as the function on their values says, members sorted in place on the way |
| ItemEquality.CompareItems | assets/cJSON/cJSON.c:2981-3104 | the loops of lookups answer as the function on the values does, and an item is equal to itself |
| Operations.AddConforms | assets/cJSON/cJSON_Utils.c:971-1020 | add succeeds exactly when section 4.1 of RFC 6902 makes it legal, and then gives the tree that section prescribes, if and only if the last token is stable, its parent is no object, or the name and the spoilt one both hold the value already |
| Operations.RemoveConforms | assets/cJSON/cJSON_Utils.c:887-902 | the same for section 4.2, if and only if the lookup of the un-escaped name in whatever case finds what the lookup of the name in the caller's case mode finds |
| Operations.ReplaceConforms | assets/cJSON/cJSON_Utils.c:887-969 | the same for section 4.3, if and only if the two lookups of the un-escaped name agree, and the name finds the same or both names hold the value already |
| Operations.MoveIsRemoveThenAdd | assets/cJSON/cJSON_Utils.c:904-941 | move is exactly remove at the location that the detach empties, followed by add where the un-escaped last token points, for every patch with well addressed pointers |
| Rfc6902.RemoveThenAddInside | assets/cJSON/cJSON_Utils.c:904-941 | removing a location and adding what was there below it succeeds if and only if it is an element of an array and the next element can take it in |
| Operations.MoveConforms | assets/cJSON/cJSON_Utils.c:904-941 | move conforms to section 4.4 if and only if `MovesAsAsked`: with the member asked for and a stable target, if it is not the case that a location is moved into itself, is an element of an array, and the next element can take it in; with a case twin taken or an unstable target, under the conditions of `OtherMembers.MovesAgree`, `OtherMembers.RenamesAgree` and `SpoiltAlike` |
| OtherMembers.MovesAgree | assets/cJSON/cJSON_Utils.c:430-481 | moving another member of the same object comes to the same if and only if the target is not legal, or neither can go there, or both hold the same and the target replaces a member in which their object is |
| OtherMembers.RenamesAgree | assets/cJSON/cJSON_Utils.c:904-1020 | so does moving another member to another name if and only if the target is not legal, or neither can go there, or both stay where they are |
| OtherMembers.ReplacementsAgree | assets/cJSON/cJSON_Utils.c:887-1020 | removing one member and adding under a second name replaces a third if and only if that one is there, the first two are the same name, and the third is too or both hold the value already |
| Operations.MoveTakesTwin | assets/cJSON/cJSON_Utils.c:430-481 | an object with members "A" and "a" and a case sensitive patch that moves "a": `apply_patch` returns 0 and has moved "A" |
| Operations.MoveLeavesOthers | assets/cJSON/cJSON_Utils.c:904-941 | what is off the two locations on which a move acts is found again, unchanged, where its elements have slid to |
| Operations.NoMoveBelowObject | assets/cJSON/cJSON_Utils.c:904-941 | below an object a removed location is gone, so there a move into itself always fails as the RFC asks |
| Operations.MoveIntoItself | assets/cJSON/cJSON_Utils.c:904-941 | a tree of two arrays and a patch that moves the first into itself: `apply_patch` returns 0 and leaves the second holding it |
| Operations.CopyConforms | assets/cJSON/cJSON_Utils.c:911-941 | copy conforms to section 4.5, legal and illegal cases alike, under the condition of add |
| Operations.CopyLeavesOthers | assets/cJSON/cJSON_Utils.c:911-941 | what is off the place where a copy is added is found again, unchanged, where its elements have slid to |
| Operations.TestConforms | assets/cJSON/cJSON_Utils.c:825-829 | test succeeds exactly when the located value means the given one, and changes no meaning |
| PatchFailures.ValueAtRoot | assets/cJSON/cJSON_Utils.c:846-877 | add and replace of the whole document return 0 and leave the value, exactly if there is one; otherwise nothing changes |
| PatchFailures.NothingToRoot | assets/cJSON/cJSON_Utils.c:904-1020 | a move or copy to the root always fails; what was to be moved is gone from where it was |
| PatchFailures.MalformedRefused | assets/cJSON/cJSON_Utils.c:807-844 | a patch without a string for its path, or whose operation is none of the six, returns a status other than 0 and leaves the document as it was |
| PatchFailures.IncompleteRefused | assets/cJSON/cJSON_Utils.c:904-969 | so do a move or copy without a string to move from, and an add or test without a value |
| PatchFailures.StatusTells | assets/cJSON/cJSON_Utils.c:807-1036 | which reasons a status other than 0 stands for: 1 a test, 4 no "from", 5 nothing at it, 7 no value, 13 nothing to remove, 9 to 11 no place to add to |
| PatchFailures.AddTells | assets/cJSON/cJSON_Utils.c:971-1020 | 9 says that there is no container where the path points, 10 that the index is past the end of an array, 11 that the token is no index |
| PatchFailures.FailureLeaves | assets/cJSON/cJSON_Utils.c:807-1036 | an operation that fails leaves the document as it was, its members at most reordered by test; replace and move may have detached first |
| PatchFailures.StopsAtFailure | assets/cJSON/cJSON_Utils.c:1038-1065 | the first patch that fails decides the status, and the later ones are not applied |
| PatchFailures.NoPatchesRefused | assets/cJSON/cJSON_Utils.c:1038-1065 | a patch document that is no array is refused with status 1 and changes nothing |
| PatchFailures.PatchWords | assets/cJSON/cJSON_Utils.c:742-780 | the member names and operations looked for are the words of section 4 of RFC 6902 |
| Rfc6902.OffUnchanged | assets/cJSON/cJSON_Utils.c:807-1036 | an add, remove or replace leaves every location off its own unchanged; later elements of the edited array stand one index further or nearer |
| Rfc6902.MoveLeaves | assets/cJSON/cJSON_Utils.c:904-941 | the same for the two locations of a move, one after the other |
| ItemPaths.CloseHole | assets/cJSON/cJSON_Utils.c:430-481 | a subtree may change as long as its root stays: the tree around it is a tree again |
| ItemPaths.ClosedValue | assets/cJSON/cJSON_Utils.c:430-481 | and its value differs at that place only |
| ItemPatching.DetachPath | assets/cJSON/cJSON_Utils.c:430-481 | the located item becomes a tree of its own and points nowhere; the rest of the tree closes around the gap and stands for the value the function on values leaves |
| ItemPatching.AddToPath | assets/cJSON/cJSON_Utils.c:971-1036 | the value is linked into the parent that the path names, or the specified status returned and the tree left as it is |
| ItemApplying.ApplyPatch | assets/cJSON/cJSON_Utils.c:807-1036 | on the items: the tree is rebuilt in place into what the operation makes of its value, with the same status, using its own items and new ones |
| ItemApplying.ApplyPatches | assets/cJSON/cJSON_Utils.c:1038-1065 | the loop over a patch document, stopping at the first failure |
| ItemTesting.ApplyTest | assets/cJSON/cJSON_Utils.c:825-829 | on the items: test returns the specified status, and leaves document and patch as specified, what was compared sorted in place; heads need not point back to their tails |
| DiffMeaning.DiffReaches | assets/cJSON/cJSON_Utils.c:1141-1279 | patches generated below any path act on the subtree there and nowhere else, and make it mean the target subtree |
| DiffExact.GeneratedExact | assets/cJSON/cJSON_Utils.c:1141-1309 | at every location and for every operation, the generated patches of that operation there, with their values in order, are those wanted: a replacement of unlike values, the removal of a member only the old object has, the addition of one only the new one has, one removal or addition for every element that the new array is shorter or longer |
| DiffExact.GeneratedDiffer | assets/cJSON/cJSON_Utils.c:1141-1309 | every generated patch is an operation at a location where the two trees differ in the way it says |
| DiffExact.NothingGenerated | assets/cJSON/cJSON_Utils.c:1281-1309 | there is no patch exactly between trees that mean the same |
| PatchRoundTrip.PatchRoundTripExact | assets/cJSON/cJSON_Utils.c:1281-1309 | generate and apply is the identity on meanings over a set of names if and only if all names are stable and, case sensitively, no two differ in case only |
| PatchRoundTrip.PlainRoundTrip | assets/cJSON/cJSON_Utils.c:1281-1294 | in particular for all trees whose names contain neither tilde nor slash, through the case insensitive entry points |
| ItemDiffing.ComposePatch | assets/cJSON/cJSON_Utils.c:1096-1134 | a new operation, with a copy of its value, is linked at the end of the patches |
| ItemDiffing.CreatePatches | assets/cJSON/cJSON_Utils.c:1141-1279 | on the items: the patches built are those of the function on values, and both arguments only have their members reordered |
| ItemRoundTrip.PatchRoundTrip | assets/cJSON/cJSON_Utils.c:1281-1309 | on linked items: patches generated between two trees and applied to a copy taken before succeed and give the second tree up to member order; `cJSON_Compare` agrees; the arguments are only reordered |
| Merging.CompareKeepsSize | assets/cJSON/cJSON_Utils.c:1391-1471 | the comparison inside the merge generator changes no tree's size, on which the generator's termination rests |
| MergeMeaning.MergeIsRfc | assets/cJSON/cJSON_Utils.c:1321-1379 | merging computes MergePatch of section 2 of RFC 7396 on meanings, for targets and patches with distinct keys |
| MergeMeaning.MergeTwice | assets/cJSON/cJSON_Utils.c:1321-1379 | merging a patch twice gives the very tree that merging it once gives, members in the same order |
| ItemMerging.MergePatch | assets/cJSON/cJSON_Utils.c:1321-1379 | on the items: the target is rebuilt in place, or replaced, into what merging makes of its value |
| MergeDiff.NoDiff | assets/cJSON/cJSON_Utils.c:1464-1470 | there is no merge patch exactly between equal objects |
| MergeDiff.MergeDiffExact | assets/cJSON/cJSON_Utils.c:1391-1471 | a difference of meanings can be carried by a merge patch if and only if it is recoverable: no null is wanted where the patch would delete |
| MergeGenerate.GenerateMeaning | assets/cJSON/cJSON_Utils.c:1391-1471 | the walk along both sorted lists produces a patch that means the difference of the two trees, or none when there is none |
| MergeGenerate.MergeRoundTrip | assets/cJSON/cJSON_Utils.c:1391-1482 | generating a merge patch and merging it into a prior copy gives the new tree whenever the difference is recoverable and the two orders agree on the names |
| MergeGenerate.MergeRoundTripExact | assets/cJSON/cJSON_Utils.c:1473-1482 | over a set of names, in either case mode, every recoverable difference makes the round trip if and only if `strcmp` and the case insensitive order agree on the names |
| ItemMergeDiff.GenerateMergePatch | assets/cJSON/cJSON_Utils.c:1391-1471 | on the items: the patch built, or NULL, is that of the function on values, and both arguments only have their members reordered |
| ItemRoundTrip.MergeRoundTrip | assets/cJSON/cJSON_Utils.c:1473-1482 | on linked items: generating a merge patch and merging it into a copy taken before gives the second tree up to member order exactly when the difference is recoverable; there is no patch exactly between equal objects |
| Escapes.EscapeCountExact | assets/cJSON/cJSON.c:926-950 | the escape count of the first loop is exactly what the second loop writes beyond the string, and 0 exactly when nothing is escaped |
| Escapes.AllocationSuffices | assets/cJSON/cJSON.c:786-880 | for every text, well formed or not, all that the second pass writes, until its end or a bad escape, and the NUL fit the size computed in advance |
| Spellings.EncodeIsUtf8 | assets/cJSON/cJSON.c:706-762 | the encoder that fills bytes in from the last to the first writes the table of section 3 of RFC 3629 |
| Spellings.Utf8AllRoundTrip | assets/cJSON/cJSON.c:706-762 | a strict decoder takes the encoded text apart into the scalar values again, so no two sequences encode alike |
| Spellings.ReadLiteral | assets/cJSON/cJSON.c:773-899 | both passes over any literal of section 7 of RFC 8259, spelled with plain characters, short escapes, code units and surrogate pairs in any mixture, stop at its quote and give the bytes it stands for |
| Spellings.PrintedLiteralReadsBack | assets/cJSON/cJSON.c:902-1021 | what the printer writes for any NUL-free string is read back as that string |
| Spellings.PrintedShortest | assets/cJSON/cJSON.c:902-1021 | no spelling of a character that RFC 8259 allows is shorter than the printed one, which has no control bytes |
| Spellings.ScalarsReadAsUtf8 | assets/cJSON/cJSON.c:652-770 | any sequence of nonzero Unicode scalar values written as code unit escapes, in surrogate pairs where needed, is read as its UTF-8 form |
| Parsing.ParseValue | assets/cJSON/cJSON.c:1312-1364 | a successful step moves the cursor strictly forward and never past the terminator; a failed one reports a place at or after its start |
| Reading.ReadLayout | assets/cJSON/cJSON.c:1312-1536 | the text of any value with any white space, at any cursor and depth, is read as its tree up to its end if depth and nesting stay within the limit, and refused otherwise |
| Reading.ParseLayout | assets/cJSON/cJSON.c:1079-1172 | a whole JSON text, with runs of bytes 1 to 32 between its tokens and every spelling of its strings, parses to its tree if and only if its containers nest at most 1000 deep |
| Acceptance.ParseExact | assets/cJSON/cJSON.c:1312-1711 | from any cursor and depth a value is taken, up to a place, exactly if the text between spells it and containers nest within the limit |
| Acceptance.TextExact | assets/cJSON/cJSON.c:1079-1172 | a whole text is taken exactly if it is a mark or none, white space, the spelling of a value nested at most 1000 deep, and only white space after it where the end is asked for |
| Acceptance.StringExact | assets/cJSON/cJSON.c:773-899 | a string is taken exactly if it is spelled so, also where invalid digits read as 0 or put the two passes out of step |
| Acceptance.NumberExact | assets/cJSON/cJSON.c:305-379 | a number is what `strtod` takes of the longest run of at most 63 number bytes, brought towards zero into the range of int |
| Refusals.TextRefused | assets/cJSON/cJSON.c:1079-1172 | where a text is refused, the reported place is where what was spelled before cannot go on: at a byte that begins no value, behind the quote of a literal that does not end, at a bad escape, where a comma, colon or closing bracket is missing, at a bracket that nests too deep, at what follows the value where the end is asked for |
| Refusals.StringRefused | assets/cJSON/cJSON.c:773-899 | the same for strings |
| PrintParse.PrintedParsesBack | assets/cJSON/cJSON.c:1252-1260 | formatted and unformatted prints parse back to the same tree, members in the same order, if and only if containers nest at most 1000 deep, when `strtod` reads decimal numerals of 32-bit integers as themselves |
| ParseBuffers.ParseBuffer.SkipWhitespace | assets/cJSON/cJSON.c:1038-1061 | the cursor ends at the first byte above 32, or on the terminator |
| ParseBuffers.ParseBuffer.ParseNumber | assets/cJSON/cJSON.c:305-379 | the copying loop and the saturating conversion give the specified number and cursor |
| ParseBuffers.ReadHex4 | assets/cJSON/cJSON.c:615-648 | the shifting loop gives the four-digit value, or 0 |
| ParseBuffers.Utf16LiteralToUtf8 | assets/cJSON/cJSON.c:652-770 | the reader and the encoder's loop, on the output array, take and write what the specification says |
| ParseBuffers.UnescapeOne | assets/cJSON/cJSON.c:820-880 | at every step of the second pass what has been written leaves room in the allocation, even where a bad escape has put the passes out of step |
| ParseBuffers.ParseBuffer.ParseString | assets/cJSON/cJSON.c:773-899 | the two passes, with an output array of exactly the allocated size, give the specified string or error place |
| ItemParsing.ParseArray | assets/cJSON/cJSON.c:1441-1536 | the loop links a new item for every element and builds the specified array with a proper child list; the depth is restored on success |
| ItemParsing.ParseObject | assets/cJSON/cJSON.c:1601-1711 | the same for members |
| ItemParsing.ParseText | assets/cJSON/cJSON.c:1079-1172 | the entry point returns a tree of new items for the specified value, and the specified end or error place |
| Rendering.LaidAsRendered | assets/cJSON/cJSON.c:1539-1825 | what is printed is the text of a layout of the same tree |
| PrintedSpace.FormattedSpace | assets/cJSON/cJSON.c:1539-1825 | the formatted print is the unformatted one with a new line and tabs behind an opening brace, behind commas between members and before a closing brace, a space behind commas between elements and a tab behind colons; the unformatted one has no white space outside literals |
| PrintParse.PrintedInteger | assets/cJSON/cJSON.c:544-612 | an integer is printed as its decimal numeral without leading zeros |
| Printing.PrintBuffer.Ensure | assets/cJSON/cJSON.c:439-522 | room is made exactly when the capacity allows, and every byte up to the offset survives the growth, whether by realloc or by hand |
| Printing.PrintBuffer.UpdateOffset | assets/cJSON/cJSON.c:525-535 | the lagging offset moves to the end of what has been printed |
| Printing.PrintBuffer.PrintString | assets/cJSON/cJSON.c:902-1021 | counting, reserving and writing print the literal, exactly when it and two bytes fit the capacity |
| Printing.PrintBuffer.PrintArray | assets/cJSON/cJSON.c:1539-1598 | the reservations along the loop succeed exactly when offset, rendering and two bytes fit; then the rendering stands after what was there, and the depth is restored |
| Printing.PrintBuffer.PrintObject | assets/cJSON/cJSON.c:1714-1825 | the same for objects, with their indentation |
| Printing.Print | assets/cJSON/cJSON.c:1187-1260 | the rendering in an array of its own, whichever way the buffer grows, if and only if it and two bytes fit an int |
| Printing.PrintBuffered | assets/cJSON/cJSON.c:1262-1290 | the same rendering under the same condition, whatever the initial size |
| Printing.PrintPreallocated | assets/cJSON/cJSON.c:1292-1309 | success if and only if the length is at least the rendering's plus two; then the buffer begins with the rendering and its NUL |
| Minifying.MinifyInPlace | assets/cJSON/cJSON.c:2833-2879 | the array ends up holding the minified text; the write cursor never passes the read cursor |
| Minifying.MinifyString | assets/cJSON/cJSON.c:2811-2831 | a string is copied down whole, and nothing unread is overwritten |
| Minified.MinifyTwice | assets/cJSON/cJSON.c:2784-2879 | on every text minifying twice is minifying once |
| Minified.MinifyLayout | assets/cJSON/cJSON.c:2784-2879 | a JSON text in which no closing quote follows an escaped backslash loses exactly its white space |
| MinifyExact.MinifyPrinted | assets/cJSON/cJSON.c:2784-2879 | minifying either print of a tree in which no string or key ends in a backslash gives the unformatted print |
| MinifyPrints.MinifyFormatted | assets/cJSON/cJSON.c:2784-2879 | minifying the formatted print gives the unformatted print if and only if no string or key ends in a backslash, or one string alone does and nothing but closing brackets comes after it |
| MinifyExact.MinifyExactly | assets/cJSON/cJSON.c:2811-2831 | however white space is placed in a text, minifying takes exactly that away, if and only if no closing quote follows an escaped backslash |
| MinifyComments.MinifyCommented | assets/cJSON/cJSON.c:2784-2879 | white space, one-line and block comments, open ones at the end of the text included, and lone slashes between the tokens of a text go, and the tokens stay |
| ChildLists.ForwardApart | assets/cJSON/cJSON.c:1956-1987 | a list whose links end in NULL is acyclic |
| ChildLists.AddItemToArray | assets/cJSON/cJSON.c:1956-1987 | an unlinked item becomes the last child, and the head's back link follows |
| ChildLists.DetachItemViaPointer | assets/cJSON/cJSON.c:2187-2221 | the item leaves the list, which stays a child list of the others, and points nowhere |
| ChildLists.InsertItemInArray | assets/cJSON/cJSON.c:2263-2289 | the item goes before the one at the index, or to the end; negative indices are refused |
| ChildLists.InsertItemWithin | assets/cJSON/cJSON_Utils.c:693-728 | the patch layer's insertion refuses exactly the indices past the end |
| ChildLists.ReplaceItemViaPointer | assets/cJSON/cJSON.c:2292-2339 | the replacement stands where the item stood, in lists of any length |
| ChildLists.RunEdits | assets/cJSON/cJSON.c:1928-2339 | over every run of append, insert, detach and replace with unlinked items the children are a proper child list and are what the sequence operations make of them |
| ItemTrees.Duplicate | assets/cJSON/cJSON.c:2701-2773 | the copy consists of new items throughout, has a proper child list at every container, and stands for the same value |
| BumpHeap.Heap.Malloc | assets/Unity/extras/memory/src/unity_memory.c:67-105 | a block above the heap index, or NULL exactly for the countdown, size 0 or lack of room; live blocks stay aligned, apart and guarded, and their number is the count |
| BumpHeap.Heap.CountDown | assets/Unity/extras/memory/src/unity_memory.c:75-80 | a request is refused exactly if the countdown is 0; else it falls by one unless it is off |
| BumpHeap.CountdownRefuses | assets/Unity/extras/memory/src/unity_memory.c:75-80 | a countdown of n lets n requests pass and refuses all that follow |
| BumpHeap.Heap.Release | assets/Unity/extras/memory/src/unity_memory.c:116-136 | one block is given back, and the heap index is lowered exactly if it was the topmost |
| BumpHeap.Heap.Free | assets/Unity/extras/memory/src/unity_memory.c:138-153 | the block is given back, and an overrun reported if and only if its end mark is no longer what was written; with all marks whole there is none, and the other blocks are as they were |
| BumpHeap.Heap.OverrunIsReported | assets/Unity/extras/memory/src/unity_memory.c:107-153 | a client that writes over a byte of the end mark of its block is reported when it frees the block, unless the byte stays the same |
| BumpHeap.Heap.Calloc | assets/Unity/extras/memory/src/unity_memory.c:155-161 | the block is all zeros |
| BumpHeap.Heap.Realloc | assets/Unity/extras/memory/src/unity_memory.c:163-202 | in every case: the answer, the live blocks, the heap index, and what all blocks hold; the old contents stand at the head of the new block; the topmost block grows at its own address, and cannot fail after its release while the countdown is off |
| BumpHeap.Heap.Store | assets/Unity/extras/memory/src/unity_memory.c:67-105 | a client that writes inside its block changes no other block and no guard |
| BumpHeap.Heap.FreeInReverse | assets/Unity/extras/memory/src/unity_memory.c:116-153 | freeing stacked blocks in reverse order restores the heap index they started from |
| BumpHeap.PackedPush | assets/Unity/extras/memory/src/unity_memory.c:72-93 | a block at the heap index is aligned and apart from all live blocks |
| BumpHeap.StackedGrow | assets/Unity/extras/memory/src/unity_memory.c:183-195 | growing the topmost block where it is keeps the stack of blocks |
| BumpRuns.RunHeap | assets/Unity/extras/memory/src/unity_memory.c:67-202 | after every run of malloc, calloc, realloc, free and writes inside blocks, with the countdown off: live blocks are those the client holds and those from before, each holds what its owner last stored, calloc zeros and bytes kept by realloc included, blocks from before are untouched, and while the run is in order its blocks are stacked |
| BumpRuns.RunAndFreeInReverse | assets/Unity/extras/memory/src/unity_memory.c:116-153 | freeing the blocks of a run in order in reverse restores the heap index, the live blocks and all they hold |
| BumpRuns.StaysInOrder | assets/Unity/extras/memory/src/unity_memory.c:163-202 | a run in which no step frees and no realloc moves a block is in order |
| BumpHeap.Heap.EndTest | assets/Unity/extras/memory/src/unity_memory.c:21-28 | a leak is reported exactly if a block is live |
| Crc32.TableIsDivision | HW10-crc32/src/main.c:13-57 | every one of the 256 table entries is the division of its index by the reversed polynomial 0xEDB88320 |
| Crc32.TableStepExact | HW10-crc32/src/main.c:96-99 | one turn of the table-driven loop, with a signed char, is eight bitwise steps |
| Crc32.CrcOfFile | HW10-crc32/src/main.c:78-122 | for every file and every positive batch length the batched loops give the bit-by-bit CRC (section 8 of RFC 1952) |
| Crc32.OneByteDetected | HW10-crc32/src/main.c:96-99 | files of one length that differ in one byte have different CRCs |
| Crc32.BurstDetected | HW10-crc32/src/main.c:96-99 | so have files that differ only within four neighbouring bytes |
| Crc32.CheckValue | HW10-crc32/src/main.c:78-122 | the CRC of the characters "123456789" is 0xCBF43926 |

## Left out

- Floating point: `valuedouble`, `strtod`, the "%1.15g" and "%1.17g" branches and `compare_double`. A number is its `valueint`; `strtod` is a parameter of the parser that takes no more characters than it is given and, where a theorem needs it, reads decimal integers as themselves.
- Wrap-around of `size_t` in lengths and sizes, except in array indices of pointers, where it is modelled.
- Locales, hooks as function pointers, failing allocations, `cJSON_Raw`, items by reference and constant names, and NULL arguments that only make a function return at once.
- ItemApplying.ApplyPatch: covers no `test`, which is `ItemTesting.ApplyTest`, and no removal of the root.
- ItemApplying.ApplyPatches: covers no patch documents with a `test` or a removal of the root; `test` sorts what it compares and leaves heads that do not point back to their tails, on which a later append in the same object would go astray.
- Deleted items are dropped, not given back to an allocator.
- The members of arrays have no names: `get_object_item` on an array, which would find an element that was once a member, is taken to find nothing.
- The printer and `cJSON_Minify` read values and texts; that the printer reads a tree of items without changing it is not modelled separately.
- The byte that growing a print buffer of size 0 by hand copies from beyond it.
- `remove` of the root overwrites it with an invalid item; the model reports that as `RootRemoved` and goes no further.
- A `move` or `copy` whose `from` is not a string is modelled as a failure with status 5; the code reads a NULL pointer there.
- Guard headers of the bump heap are kept as a map from their addresses, not as bytes of the heap; end marks are bytes.
- Opening, measuring and mapping of the file in the CRC utility; a file is a sequence of bytes.
- The hash map of HW03, the other exercises, and the rest of Unity.
- Operations.AddConforms: the target is not the root, tokens that meet an array on the way are those which the code reads as RFC 6901 does, and a last token that meets one is stable; what the code makes of others is `Pointers.DecodeIndexExact` and `Decoding.DecodeExact`.
- Operations.RemoveConforms: the same.
- Operations.ReplaceConforms: the same.
- Operations.MoveIsRemoveThenAdd: the same, of `from`, and of the target in the tree that the removal leaves.
- Operations.MoveConforms: the same.
- Operations.MoveLeavesOthers: the same.
- Operations.CopyConforms: the same, and of `from`, which may be the root.
- Operations.CopyLeavesOthers: the same.
- MinifyExact.MinifyPrinted: for the formatted print `MinifyPrints.MinifyFormatted` is exact; what becomes of an unformatted print after a missed quote depends on the white space inside its later strings.

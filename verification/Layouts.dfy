/** JSON texts as concrete syntax: every spelling of a tree, with its white space (section 2 of RFC 8259). */
module Layouts {
  import opened Bytes
  import opened Json
  import opened Escapes
  import opened Spellings
  import opened Parsing

  predicate IsGap(s: Str) {
    forall i | 0 <= i < |s| :: s[i] <= 32
  }

  predicate IsNumeral(s: Str) {
    s != [] && forall i | 0 <= i < |s| :: NumberChar(s[i])
  }

  /** A run of bytes that the parser skips. */
  type gap = s: Str | IsGap(s) witness []
  /** A run of the characters that numbers are made of. */
  type numeral = s: Str | IsNumeral(s) witness [48]
  type spelling = sp: Spelling | WellSpelled(sp) witness Plain(65)

  datatype Layout =
    | NullWord
    | FalseWord
    | TrueWord
    | Numeral(digits: numeral, n: int32)
    | Quoted(text: seq<spelling>)
    | Items(inside: gap, items: seq<Item>)
    | Entries(inside: gap, entries: seq<Entry>)

  /** An element of an array, with the white space around it. */
  datatype Item = Item(before: gap, value: Layout, after: gap)

  /** A member of an object, with the white space around its parts. */
  datatype Entry = Entry(before: gap, name: seq<spelling>, beforeColon: gap, afterColon: gap, value: Layout, after: gap)

  // ---- the tree that a layout spells ----

  function Tree(l: Layout): Json
    decreases l
  {
    match l
    case NullWord => Null
    case FalseWord => False
    case TrueWord => True
    case Numeral(_, n) => Number(n)
    case Quoted(text) => String(StandsAll(text))
    case Items(_, items) => Array(TreeItems(items))
    case Entries(_, entries) => Object(TreeEntries(entries))
  }

  function TreeItems(items: seq<Item>): (r: seq<Json>)
    ensures |r| == |items|
    decreases items
  {
    if items == [] then [] else [Tree(items[0].value)] + TreeItems(items[1..])
  }

  function TreeEntries(entries: seq<Entry>): (r: seq<Member<Json>>)
    ensures |r| == |entries|
    decreases entries
  {
    if entries == [] then []
    else [Member(StandsAll(entries[0].name), Tree(entries[0].value))] + TreeEntries(entries[1..])
  }

  // ---- the text that a layout is ----

  function QuotedText(text: seq<spelling>): Str {
    [QUOTE] + (WrittenAll(text) + [QUOTE])
  }

  function LayoutText(l: Layout): Str
    decreases l
  {
    match l
    case NullWord => NULL_WORD
    case FalseWord => FALSE_WORD
    case TrueWord => TRUE_WORD
    case Numeral(digits, _) => digits
    case Quoted(text) => QuotedText(text)
    case Items(inside, items) => [LEFT_BRACKET] + (inside + ItemsText(items))
    case Entries(inside, entries) => [LEFT_BRACE] + (inside + EntriesText(entries))
  }

  /** The elements with their commas, and the closing bracket. */
  function ItemsText(items: seq<Item>): Str
    decreases items, 0
  {
    if items == [] then [RIGHT_BRACKET]
    else items[0].before + (LayoutText(items[0].value) + (items[0].after + ItemsRest(items[1..])))
  }

  function ItemsRest(items: seq<Item>): Str
    decreases items, 1
  {
    if items == [] then [RIGHT_BRACKET] else [COMMA] + ItemsText(items)
  }

  /** One member, with the white space around it, and what comes after. */
  function EntryText(e: Entry, rest: Str): Str
    decreases e
  {
    e.before +
    (QuotedText(e.name) + (e.beforeColon + ([COLON] + (e.afterColon + (LayoutText(e.value) + (e.after + rest))))))
  }

  /** The members with their commas, and the closing brace. */
  function EntriesText(entries: seq<Entry>): Str
    decreases entries, 0
  {
    if entries == [] then [RIGHT_BRACE] else EntryText(entries[0], EntriesRest(entries[1..]))
  }

  function EntriesRest(entries: seq<Entry>): Str
    decreases entries, 1
  {
    if entries == [] then [RIGHT_BRACE] else [COMMA] + EntriesText(entries)
  }

  // ---- numerals ----

  /** A numeral that the parser hands to `strtod` in one piece, and that `strtod` reads whole. */
  predicate ReadsAs(digits: numeral, n: int32, strtod: Strtod) {
    && |digits| <= 63
    && StartsNumber(digits[0])
    && strtod(digits).1 == |digits|
    && ToInt(strtod(digits).0) == n
  }

  predicate NumeralsRead(l: Layout, strtod: Strtod) {
    match l
    case Numeral(digits, n) => ReadsAs(digits, n, strtod)
    case Items(_, items) => forall x | x in items :: NumeralsRead(x.value, strtod)
    case Entries(_, entries) => forall e | e in entries :: NumeralsRead(e.value, strtod)
    case _ => true
  }

  // ---- nesting ----

  function Max(a: nat, b: nat): nat {
    if a < b then b else a
  }

  /** How deeply containers are nested in a tree. */
  function Nesting(t: Json): nat
    decreases t
  {
    match t
    case Array(items) => 1 + NestingItems(items)
    case Object(members) => 1 + NestingMembers(members)
    case _ => 0
  }

  function NestingItems(items: seq<Json>): nat
    decreases items
  {
    if items == [] then 0 else Max(Nesting(items[0]), NestingItems(items[1..]))
  }

  function NestingMembers(members: seq<Member<Json>>): nat
    decreases members
  {
    if members == [] then 0 else Max(Nesting(members[0].value), NestingMembers(members[1..]))
  }
}

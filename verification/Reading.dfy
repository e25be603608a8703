/** The parser reads every layout as its tree, exactly when containers nest no deeper than the limit. */
module Reading {
  import opened Bytes
  import opened Json
  import opened Pointers
  import opened Escapes
  import opened Spellings
  import opened Parsing
  import opened Layouts

  // ---- white space ----

  lemma {:induction false} SkipOver(text: Str, i: nat, g: gap)
    requires Here(text, i, g)
    ensures SkipSpace(text, i) == SkipSpace(text, i + |g|)
    decreases |g|
  {
    if g != [] {
      HereAt(text, i, g);
      assert At(text, i + 0) == g[0];
      assert g == [g[0]] + g[1..];
      HereSplit(text, i, [g[0]], g[1..]);
      SkipOver(text, i + 1, g[1..]);
    }
  }

  /** White space before a text that begins with something else. */
  lemma GapBefore(text: Str, i: nat, g: gap, rest: Str)
    requires rest != [] && rest[0] > 32 && Here(text, i, g + rest)
    ensures SkipSpace(text, i) == i + |g| && Here(text, i + |g|, rest)
    ensures At(text, i + |g|) == rest[0]
  {
    HereSplit(text, i, g, rest);
    SkipOver(text, i, g);
    HereAt(text, i + |g|, rest);
    assert At(text, i + |g| + 0) == rest[0];
  }

  predicate Structural(c: byte) {
    c == COMMA || c == COLON || c == RIGHT_BRACKET || c == RIGHT_BRACE
  }

  /** White space after a value: the value ends before it. */
  lemma GapAfter(text: Str, i: nat, t: Str, g: gap, rest: Str)
    requires rest != [] && Structural(rest[0]) && Here(text, i, t + (g + rest))
    ensures Here(text, i, t)
    ensures !NumberChar(At(text, i + |t|))
    ensures SkipSpace(text, i + |t|) == i + |t| + |g| && Here(text, i + |t| + |g|, rest)
    ensures At(text, i + |t| + |g|) == rest[0]
  {
    HereSplit(text, i, t, g + rest);
    GapBefore(text, i + |t|, g, rest);
    HereAt(text, i + |t|, g + rest);
    assert At(text, i + |t| + 0) == (g + rest)[0];
  }

  lemma LayoutStart(l: Layout, strtod: Strtod)
    requires NumeralsRead(l, strtod)
    ensures LayoutText(l) != [] && LayoutText(l)[0] > 32 && LayoutText(l)[0] != RIGHT_BRACKET
  {
  }

  // ---- leaves ----

  lemma {:induction false} RunOfNumeral(text: Str, i: nat, digits: numeral, n: nat)
    requires Here(text, i, digits) && |digits| <= 63 && n <= |digits|
    requires !NumberChar(At(text, i + |digits|))
    ensures NumberRun(text, i, n) == |digits|
    decreases |digits| - n
  {
    if n < |digits| {
      HereAt(text, i, digits);
      assert At(text, i + n) == digits[n];
      RunOfNumeral(text, i, digits, n + 1);
    }
  }

  lemma ReadNumeral(input: Input, i: nat, digits: numeral, n: int32)
    requires ReadsAs(digits, n, input.strtod) && Here(input.text, i, digits)
    requires !NumberChar(At(input.text, i + |digits|))
    ensures ParseNumber(input, i) == Ok(Number(n), i + |digits|)
  {
    RunOfNumeral(input.text, i, digits, 0);
  }

  lemma ReadQuoted(input: Input, i: nat, q: seq<spelling>)
    requires Here(input.text, i, QuotedText(q))
    ensures ParseString(input, i) == Ok(StandsAll(q), i + |QuotedText(q)|)
    ensures At(input.text, i) == QUOTE
  {
    hide ScanString, Unescape, WellSpelled, Written, Stands, WrittenAll, StandsAll, Here;
    HereSplit(input.text, i, [QUOTE], WrittenAll(q) + [QUOTE]);
    HereAt(input.text, i, [QUOTE]);
    assert At(input.text, i + 0) == QUOTE;
    ReadLiteral(input.text, i + 1, q);
    CStringOfStr(StandsAll(q));
  }

  lemma FirstChar(text: Str, i: nat, s: Str)
    requires s != []
    ensures Here(text, i, s) ==> i < |text| && text[i] == s[0]
  {
    if Here(text, i, s) {
      HereAt(text, i, s);
      assert At(text, i + 0) == s[0];
    }
  }

  /** A text that begins with another character is none of the three words. */
  lemma NotAWord(text: Str, i: nat)
    requires At(text, i) !in {110, 102, 116}
    ensures !Here(text, i, NULL_WORD) && !Here(text, i, FALSE_WORD) && !Here(text, i, TRUE_WORD)
  {
    hide Here;
    FirstChar(text, i, NULL_WORD);
    FirstChar(text, i, FALSE_WORD);
    FirstChar(text, i, TRUE_WORD);
  }

  lemma OneWord(text: Str, i: nat, a: Str, b: Str)
    requires a != [] && b != [] && a[0] != b[0] && Here(text, i, a)
    ensures !Here(text, i, b)
  {
    hide Here;
    FirstChar(text, i, a);
    FirstChar(text, i, b);
  }

  function StringItem(r: Parsed<Str>): Parsed<Json> {
    match r
    case Ok(s, next) => Ok(String(s), next)
    case Err(at) => Err(at)
  }

  lemma DispatchContainer(input: Input, i: nat, depth: nat, rest: Str)
    ensures Here(input.text, i, [LEFT_BRACKET] + rest) ==>
              && i < |input.text| && input.text[i] == LEFT_BRACKET && Here(input.text, i + 1, rest)
              && ParseValue(input, i, depth) == ParseArray(input, i, depth)
    ensures Here(input.text, i, [LEFT_BRACE] + rest) ==>
              && i < |input.text| && input.text[i] == LEFT_BRACE && Here(input.text, i + 1, rest)
              && ParseValue(input, i, depth) == ParseObject(input, i, depth)
  {
    hide Here, ParseValue, ParseArray, ParseObject;
    FirstChar(input.text, i, [LEFT_BRACKET] + rest);
    FirstChar(input.text, i, [LEFT_BRACE] + rest);
    if i < |input.text| { Dispatch(input, i, depth); }
    if Here(input.text, i, [LEFT_BRACKET] + rest) { HereSplit(input.text, i, [LEFT_BRACKET], rest); }
    if Here(input.text, i, [LEFT_BRACE] + rest) { HereSplit(input.text, i, [LEFT_BRACE], rest); }
  }

  /** Which branch of `parse_value` is taken. */
  lemma Dispatch(input: Input, i: nat, depth: nat)
    requires i < |input.text|
    ensures var c := input.text[i];
            && (c == QUOTE ==> ParseValue(input, i, depth) == StringItem(ParseString(input, i)))
            && (StartsNumber(c) ==> ParseValue(input, i, depth) == ParseNumber(input, i))
            && (c == LEFT_BRACKET ==> ParseValue(input, i, depth) == ParseArray(input, i, depth))
            && (c == LEFT_BRACE ==> ParseValue(input, i, depth) == ParseObject(input, i, depth))
  {
    hide Here, ParseString, ParseNumber, ParseArray, ParseObject;
    var c := input.text[i];
    if c == QUOTE || StartsNumber(c) || c == LEFT_BRACKET || c == LEFT_BRACE { NotAWord(input.text, i); }
  }

  // ---- values ----

  /** The outcome of reading `v` at a depth: `v` itself if that depth is within the limit, else failure. */
  ghost predicate Reads<T>(r: Parsed<T>, v: T, next: nat, depth: nat) {
    if depth <= NESTING_LIMIT then r == Ok(v, next) else r.Err?
  }

  lemma {:induction false} ReadLayout(input: Input, i: nat, l: Layout, depth: nat)
    requires NumeralsRead(l, input.strtod) && Here(input.text, i, LayoutText(l))
    requires !NumberChar(At(input.text, i + |LayoutText(l)|))
    requires depth <= NESTING_LIMIT
    ensures Reads(ParseValue(input, i, depth), Tree(l), i + |LayoutText(l)|, depth + Nesting(Tree(l)))
    decreases l, 1
  {
    hide IsGap, WithinText, WellSpelled, Here, NumberChar, ParseString, ParseNumber, StandsAll, TreeItems, TreeEntries, ItemsText, EntriesText, NestingItems, NestingMembers;
    match l
    case NullWord =>
    case FalseWord => OneWord(input.text, i, FALSE_WORD, NULL_WORD);
    case TrueWord =>
      OneWord(input.text, i, TRUE_WORD, NULL_WORD);
      OneWord(input.text, i, TRUE_WORD, FALSE_WORD);
    case Numeral(digits, n) =>
      FirstChar(input.text, i, digits);
      Dispatch(input, i, depth);
      ReadNumeral(input, i, digits, n);
    case Quoted(q) =>
      ReadQuoted(input, i, q);
      Dispatch(input, i, depth);
    case Items(inside, items) => ReadArray(input, i, inside, items, depth);
    case Entries(inside, entries) => ReadObject(input, i, inside, entries, depth);
  }

  // ---- arrays ----

  lemma ArrayEmpty(input: Input, i: nat, depth: nat, j: nat)
    requires i < |input.text| && input.text[i] == LEFT_BRACKET && SkipSpace(input.text, i + 1) == j
    requires At(input.text, j) == RIGHT_BRACKET
    ensures Reads(ParseArray(input, i, depth), Array([]), j + 1, depth + 1)
  {
    hide SkipSpace, ParseElements;
  }

  lemma ArrayFull(input: Input, i: nat, depth: nat, j: nat, items: seq<Json>, next: nat, d: nat)
    requires i < |input.text| && input.text[i] == LEFT_BRACKET && SkipSpace(input.text, i + 1) == j
    requires At(input.text, j) != RIGHT_BRACKET && depth < d
    requires depth < NESTING_LIMIT ==> Reads(ParseElements(input, j, depth + 1), items, next, d)
    ensures Reads(ParseArray(input, i, depth), Array(items), next, d)
  {
    hide SkipSpace, ParseElements;
  }

  lemma {:induction false} ReadArray(input: Input, i: nat, inside: gap, items: seq<Item>, depth: nat)
    requires forall x | x in items :: NumeralsRead(x.value, input.strtod)
    requires Here(input.text, i, [LEFT_BRACKET] + (inside + ItemsText(items))) && depth <= NESTING_LIMIT
    ensures Reads(ParseValue(input, i, depth), Array(TreeItems(items)), i + 1 + |inside| + |ItemsText(items)|,
                  depth + 1 + NestingItems(TreeItems(items)))
    decreases items, 4
  {
    hide IsGap, IsNumeral, WithinText, WellSpelled, ItemsText, TreeItems, NestingItems, Here, ParseElements, NumeralsRead, SkipSpace, ParseValue, ParseArray, Reads, ItemsRest;
    var start := i + 1 + |inside|;
    DispatchContainer(input, i, depth, inside + ItemsText(items));
    HereSplit(input.text, i + 1, inside, ItemsText(items));
    SkipOver(input.text, i + 1, inside);
    NoItems();
    if items == [] {
      FirstChar(input.text, start, [RIGHT_BRACKET]);
      SkipNone(input.text, start);
      ArrayEmpty(input, i, depth, start);
    } else {
      assert items[0] in items;
      var j := ItemStart(input, start, items);
      if depth < NESTING_LIMIT { ReadItems(input, start, j, items, depth + 1); }
      ArrayFull(input, i, depth, j, TreeItems(items), start + |ItemsText(items)|, depth + 1 + NestingItems(TreeItems(items)));
    }
  }

  lemma NoItems()
    ensures TreeItems([]) == [] && NestingItems([]) == 0 && ItemsText([]) == [RIGHT_BRACKET]
    ensures TreeEntries([]) == [] && NestingMembers([]) == 0 && EntriesText([]) == [RIGHT_BRACE]
  {
  }

  lemma ItemsUnfold(items: seq<Item>)
    requires items != []
    ensures var x, rest := items[0], items[1..];
            && TreeItems(items) == [Tree(x.value)] + TreeItems(rest)
            && NestingItems(TreeItems(items)) == Max(Nesting(Tree(x.value)), NestingItems(TreeItems(rest)))
            && |ItemsText(items)| == |x.before| + |LayoutText(x.value)| + |x.after| + |ItemsRest(rest)|
            && ItemsRest(rest) == (if rest == [] then [RIGHT_BRACKET] else [COMMA] + ItemsText(rest))
  {
    hide Tree, Nesting, LayoutText;
    assert ([Tree(items[0].value)] + TreeItems(items[1..]))[1..] == TreeItems(items[1..]);
  }

  lemma DepthOfMax(depth: nat, a: nat, b: nat)
    ensures depth + Max(a, b) == Max(depth + a, depth + b)
    ensures b == 0 ==> Max(a, b) == a
  {
  }

  lemma EntriesUnfold(entries: seq<Entry>)
    requires entries != []
    ensures var e, rest := entries[0], entries[1..];
            && TreeEntries(entries) == [Member(StandsAll(e.name), Tree(e.value))] + TreeEntries(rest)
            && NestingMembers(TreeEntries(entries)) == Max(Nesting(Tree(e.value)), NestingMembers(TreeEntries(rest)))
            && EntriesText(entries) == EntryText(e, EntriesRest(rest))
            && EntriesRest(rest) == (if rest == [] then [RIGHT_BRACE] else [COMMA] + EntriesText(rest))
  {
    hide Tree, Nesting, EntryText, StandsAll;
    var x := Member(StandsAll(entries[0].name), Tree(entries[0].value));
    assert ([x] + TreeEntries(entries[1..]))[1..] == TreeEntries(entries[1..]);
  }

  lemma SkipNone(text: Str, i: nat)
    requires i < |text| && text[i] > 32
    ensures SkipSpace(text, i) == i
  {
  }

  /** Where the first element of a nonempty array stands, and what stands there. */
  lemma ItemStart(input: Input, i: nat, items: seq<Item>) returns (j: nat)
    requires items != [] && Here(input.text, i, ItemsText(items)) && NumeralsRead(items[0].value, input.strtod)
    ensures j == SkipSpace(input.text, i) == i + |items[0].before|
    ensures At(input.text, j) != RIGHT_BRACKET
    ensures Here(input.text, j, LayoutText(items[0].value) + (items[0].after + ItemsRest(items[1..])))
  {
    hide NumeralsRead, Here, SkipSpace, LayoutText, ItemsRest;
    var x := items[0];
    LayoutStart(x.value, input.strtod);
    GapBefore(input.text, i, x.before, LayoutText(x.value) + (x.after + ItemsRest(items[1..])));
    j := i + |x.before|;
  }

  lemma ElementsLast(input: Input, i: nat, depth: nat, v: Json, n: nat, m: nat, d: nat)
    requires i <= |input.text| && n <= |input.text| && SkipSpace(input.text, n) == m && At(input.text, m) == RIGHT_BRACKET
    requires Reads(ParseValue(input, SkipSpace(input.text, i), depth), v, n, d)
    ensures Reads(ParseElements(input, i, depth), [v], m + 1, d)
  {
    hide SkipSpace, ParseValue;
  }

  lemma ElementsMore(input: Input, i: nat, depth: nat, v: Json, n: nat, m: nat, d: nat, rest: seq<Json>, next: nat, e: nat)
    requires i <= |input.text| && n <= |input.text| && SkipSpace(input.text, n) == m && At(input.text, m) == COMMA
    requires Reads(ParseValue(input, SkipSpace(input.text, i), depth), v, n, d)
    requires Reads(ParseElements(input, m + 1, depth), rest, next, e)
    ensures Reads(ParseElements(input, i, depth), [v] + rest, next, Max(d, e))
  {
    hide SkipSpace, ParseValue;
    ElementsUnfold(input, i, depth, m);
  }

  lemma ElementsUnfold(input: Input, i: nat, depth: nat, m: nat)
    requires i <= |input.text|
    ensures var r := ParseValue(input, SkipSpace(input.text, i), depth);
            && (r.Err? ==> ParseElements(input, i, depth).Err?)
            && (r.Ok? && SkipSpace(input.text, r.next) == m && At(input.text, m) == COMMA ==>
                  ParseElements(input, i, depth) == ThenElements(r.value, ParseElements(input, m + 1, depth)))
  {
    hide SkipSpace, ParseValue;
  }

  function ThenElements(v: Json, r: Parsed<seq<Json>>): Parsed<seq<Json>> {
    match r
    case Ok(rest, next) => Ok([v] + rest, next)
    case Err(at) => Err(at)
  }

  /** One element and the white space after it: where it ends, and where the next character stands. */
  lemma {:induction false} ReadItem(input: Input, i: nat, items: seq<Item>, depth: nat) returns (n: nat, m: nat)
    requires items != [] && Here(input.text, i, ItemsText(items)) && depth <= NESTING_LIMIT
    requires NumeralsRead(items[0].value, input.strtod)
    ensures i <= n <= |input.text| && m == SkipSpace(input.text, n)
    ensures Reads(ParseValue(input, SkipSpace(input.text, i), depth), Tree(items[0].value), n, depth + Nesting(Tree(items[0].value)))
    ensures m + |ItemsRest(items[1..])| == i + |ItemsText(items)| && Here(input.text, m, ItemsRest(items[1..]))
    ensures At(input.text, m) == if |items| == 1 then RIGHT_BRACKET else COMMA
    decreases items, 1
  {
    hide IsGap, IsNumeral, WithinText, WellSpelled, NumeralsRead, Here, SkipSpace, LayoutText, ParseValue, Tree, Nesting, Reads, ItemsText, ItemsRest, TreeItems, NestingItems, At,
      NumberChar;
    var x, rest := items[0], items[1..];
    ItemsUnfold(items);
    var k := ItemStart(input, i, items);
    GapAfter(input.text, k, LayoutText(x.value), x.after, ItemsRest(rest));
    ReadLayout(input, k, x.value, depth);
    n := k + |LayoutText(x.value)|;
    m := n + |x.after|;
  }

  lemma {:induction false} ReadItems(input: Input, i: nat, from: nat, items: seq<Item>, depth: nat)
    requires items != [] && Here(input.text, i, ItemsText(items)) && depth <= NESTING_LIMIT
    requires from <= |input.text| && SkipSpace(input.text, i) == SkipSpace(input.text, from)
    requires forall x | x in items :: NumeralsRead(x.value, input.strtod)
    ensures Reads(ParseElements(input, from, depth), TreeItems(items), i + |ItemsText(items)|, depth + NestingItems(TreeItems(items)))
    decreases items, 3
  {
    hide IsGap, IsNumeral, WithinText, WellSpelled, NumeralsRead, Here, SkipSpace, ParseElements, Reads, ItemsText, ItemsRest, TreeItems, NestingItems, At, Max;
    ItemsUnfold(items);
    assert items[0] in items;
    if items[1..] == [] { ReadLastItem(input, i, from, items, depth); } else { ReadMoreItems(input, i, from, items, depth); }
  }

  lemma {:induction false} ReadLastItem(input: Input, i: nat, from: nat, items: seq<Item>, depth: nat)
    requires |items| == 1 && Here(input.text, i, ItemsText(items)) && depth <= NESTING_LIMIT
    requires from <= |input.text| && SkipSpace(input.text, i) == SkipSpace(input.text, from)
    requires NumeralsRead(items[0].value, input.strtod)
    ensures Reads(ParseElements(input, from, depth), TreeItems(items), i + |ItemsText(items)|, depth + NestingItems(TreeItems(items)))
    decreases items, 2
  {
    hide IsGap, IsNumeral, WithinText, WellSpelled, NumeralsRead, Here, SkipSpace, ParseElements, ParseValue, Reads, ItemsText, ItemsRest, TreeItems, NestingItems, At, Max, Tree, Nesting;
    var v := Tree(items[0].value);
    ItemsUnfold(items);
    assert items[1..] == [];
    NoItems();
    DepthOfMax(depth, Nesting(v), 0);
    var n, m := ReadItem(input, i, items, depth);
    assert [v] + [] == [v];
    ElementsLast(input, from, depth, v, n, m, depth + Nesting(v));
  }

  lemma {:induction false} ReadMoreItems(input: Input, i: nat, from: nat, items: seq<Item>, depth: nat)
    requires |items| > 1 && Here(input.text, i, ItemsText(items)) && depth <= NESTING_LIMIT
    requires from <= |input.text| && SkipSpace(input.text, i) == SkipSpace(input.text, from)
    requires forall x | x in items :: NumeralsRead(x.value, input.strtod)
    ensures Reads(ParseElements(input, from, depth), TreeItems(items), i + |ItemsText(items)|, depth + NestingItems(TreeItems(items)))
    decreases items, 2
  {
    hide IsGap, IsNumeral, WithinText, WellSpelled, NumeralsRead, Here, SkipSpace, ParseElements, ParseValue, Reads, ItemsText, ItemsRest, TreeItems, NestingItems, At, Max, Tree, Nesting;
    var v, rest := Tree(items[0].value), items[1..];
    ItemsUnfold(items);
    assert items[0] in items;
    DepthOfMax(depth, Nesting(v), NestingItems(TreeItems(rest)));
    var n, m := ReadItem(input, i, items, depth);
    HereSplit(input.text, m, [COMMA], ItemsText(rest));
    ReadItems(input, m + 1, m + 1, rest, depth);
    ElementsMore(input, from, depth, v, n, m, depth + Nesting(v),
                 TreeItems(rest), m + 1 + |ItemsText(rest)|, depth + NestingItems(TreeItems(rest)));
  }

  // ---- objects ----

  lemma ObjectEmpty(input: Input, i: nat, depth: nat, j: nat)
    requires i < |input.text| && input.text[i] == LEFT_BRACE && SkipSpace(input.text, i + 1) == j
    requires At(input.text, j) == RIGHT_BRACE
    ensures Reads(ParseObject(input, i, depth), Object([]), j + 1, depth + 1)
  {
    hide SkipSpace, ParseMembers;
  }

  lemma ObjectFull(input: Input, i: nat, depth: nat, j: nat, members: seq<Member<Json>>, next: nat, d: nat)
    requires i < |input.text| && input.text[i] == LEFT_BRACE && SkipSpace(input.text, i + 1) == j
    requires At(input.text, j) != RIGHT_BRACE && depth < d
    requires depth < NESTING_LIMIT ==> Reads(ParseMembers(input, j, depth + 1), members, next, d)
    ensures Reads(ParseObject(input, i, depth), Object(members), next, d)
  {
    hide SkipSpace, ParseMembers;
  }

  lemma {:induction false} ReadObject(input: Input, i: nat, inside: gap, entries: seq<Entry>, depth: nat)
    requires forall e | e in entries :: NumeralsRead(e.value, input.strtod)
    requires Here(input.text, i, [LEFT_BRACE] + (inside + EntriesText(entries))) && depth <= NESTING_LIMIT
    ensures Reads(ParseValue(input, i, depth), Object(TreeEntries(entries)), i + 1 + |inside| + |EntriesText(entries)|,
                  depth + 1 + NestingMembers(TreeEntries(entries)))
    decreases entries, 3
  {
    hide IsGap, IsNumeral, WithinText, WellSpelled, EntriesText, TreeEntries, NestingMembers, Here, ParseMembers, NumeralsRead, SkipSpace, ParseValue, ParseObject, Reads;
    var start := i + 1 + |inside|;
    DispatchContainer(input, i, depth, inside + EntriesText(entries));
    HereSplit(input.text, i + 1, inside, EntriesText(entries));
    SkipOver(input.text, i + 1, inside);
    NoItems();
    if entries == [] {
      FirstChar(input.text, start, [RIGHT_BRACE]);
      SkipNone(input.text, start);
      ObjectEmpty(input, i, depth, start);
    } else {
      var j := EntryStart(input, start, entries);
      if depth < NESTING_LIMIT { ReadEntries(input, start, j, entries, depth + 1); }
      ObjectFull(input, i, depth, j, TreeEntries(entries), start + |EntriesText(entries)|, depth + 1 + NestingMembers(TreeEntries(entries)));
    }
  }

  lemma QuotedStart(q: seq<spelling>)
    ensures QuotedText(q) != [] && QuotedText(q)[0] == QUOTE
  {
  }

  function AfterName(e: Entry, rest: Str): Str {
    [COLON] + (e.afterColon + (LayoutText(e.value) + (e.after + rest)))
  }

  /** Where the name of a member stands. */
  lemma NameStart(input: Input, i: nat, e: Entry, rest: Str)
    requires Here(input.text, i, EntryText(e, rest))
    ensures SkipSpace(input.text, i) == i + |e.before|
    ensures At(input.text, i + |e.before|) == QUOTE
    ensures Here(input.text, i + |e.before|, QuotedText(e.name) + (e.beforeColon + AfterName(e, rest)))
  {
    hide Here, SkipSpace, LayoutText, QuotedText;
    QuotedStart(e.name);
    GapBefore(input.text, i, e.before, QuotedText(e.name) + (e.beforeColon + AfterName(e, rest)));
  }

  lemma EntryStart(input: Input, i: nat, entries: seq<Entry>) returns (j: nat)
    requires entries != [] && Here(input.text, i, EntriesText(entries))
    ensures j == SkipSpace(input.text, i) && j <= |input.text| && SkipSpace(input.text, j) == j
    ensures At(input.text, j) != RIGHT_BRACE
  {
    hide Here, SkipSpace, EntryText;
    NameStart(input, i, entries[0], EntriesRest(entries[1..]));
    j := SkipSpace(input.text, i);
    SkipNone(input.text, j);
  }

  lemma MemberOutcome(input: Input, i: nat, depth: nat, key: Str, n: nat, m: nat, p: nat, v: Json, q: nat, d: nat)
    requires i <= |input.text| && n <= |input.text| && m < |input.text| && p <= |input.text| && q <= |input.text|
    requires ParseString(input, SkipSpace(input.text, i)) == Ok(key, n)
    requires SkipSpace(input.text, n) == m && At(input.text, m) == COLON && SkipSpace(input.text, m + 1) == p
    requires Reads(ParseValue(input, p, depth), v, q, d)
    ensures Reads(ParseMember(input, i, depth), Member(key, v), SkipSpace(input.text, q), d)
  {
    hide SkipSpace, ParseValue, ParseString;
  }

  /** One member and the white space after it. */
  lemma {:induction false} ReadEntry(input: Input, i: nat, e: Entry, rest: Str, depth: nat) returns (next: nat)
    requires rest != [] && Structural(rest[0]) && Here(input.text, i, EntryText(e, rest)) && depth <= NESTING_LIMIT
    requires NumeralsRead(e.value, input.strtod)
    ensures Reads(ParseMember(input, i, depth), Member(StandsAll(e.name), Tree(e.value)), next, depth + Nesting(Tree(e.value)))
    ensures next + |rest| == i + |EntryText(e, rest)| && Here(input.text, next, rest)
    decreases e, 2
  {
    hide IsGap, IsNumeral, WithinText, WellSpelled, NumeralsRead, Here, SkipSpace, LayoutText, ParseValue, Tree, Nesting, QuotedText, ParseString, StandsAll, NumberChar, Reads, ParseMember, At;
    var q, t := QuotedText(e.name), LayoutText(e.value);
    var k := i + |e.before|;
    var m := ReadName(input, i, e, rest);
    var p := ValueStart(input, m, e, rest);
    GapAfter(input.text, p, t, e.after, rest);
    ReadLayout(input, p, e.value, depth);
    MemberOutcome(input, i, depth, StandsAll(e.name), k + |q|, m, p, Tree(e.value), p + |t|, depth + Nesting(Tree(e.value)));
    next := p + |t| + |e.after|;
  }

  /** The name, up to the colon. */
  lemma ReadName(input: Input, i: nat, e: Entry, rest: Str) returns (m: nat)
    requires Here(input.text, i, EntryText(e, rest))
    ensures var k := i + |e.before|;
            && SkipSpace(input.text, i) == k && k + |QuotedText(e.name)| <= |input.text|
            && ParseString(input, k) == Ok(StandsAll(e.name), k + |QuotedText(e.name)|)
            && m == SkipSpace(input.text, k + |QuotedText(e.name)|) == k + |QuotedText(e.name)| + |e.beforeColon|
    ensures m < |input.text| && At(input.text, m) == COLON && Here(input.text, m, AfterName(e, rest))
  {
    hide Here, SkipSpace, LayoutText, QuotedText, ParseString, StandsAll, NumberChar;
    var q := QuotedText(e.name);
    var k := i + |e.before|;
    NameStart(input, i, e, rest);
    GapAfter(input.text, k, q, e.beforeColon, AfterName(e, rest));
    ReadQuoted(input, k, e.name);
    m := k + |q| + |e.beforeColon|;
    FirstChar(input.text, m, AfterName(e, rest));
    HereSplit(input.text, k, q, e.beforeColon + AfterName(e, rest));
    Within(input.text, k, q);
  }

  lemma Within(text: Str, i: nat, s: Str)
    requires Here(text, i, s)
    ensures i + |s| <= |text|
  {
  }

  lemma ValueStart(input: Input, m: nat, e: Entry, rest: Str) returns (p: nat)
    requires Here(input.text, m, AfterName(e, rest)) && NumeralsRead(e.value, input.strtod)
    ensures m < |input.text| && p == SkipSpace(input.text, m + 1) == m + 1 + |e.afterColon|
    ensures Here(input.text, p, LayoutText(e.value) + (e.after + rest))
  {
    hide Here, SkipSpace, LayoutText, NumeralsRead;
    FirstChar(input.text, m, AfterName(e, rest));
    HereSplit(input.text, m, [COLON], e.afterColon + (LayoutText(e.value) + (e.after + rest)));
    LayoutStart(e.value, input.strtod);
    GapBefore(input.text, m + 1, e.afterColon, LayoutText(e.value) + (e.after + rest));
    p := m + 1 + |e.afterColon|;
  }

  lemma MembersLast(input: Input, i: nat, depth: nat, x: Member<Json>, m: nat, d: nat)
    requires i <= |input.text| && At(input.text, m) == RIGHT_BRACE
    requires Reads(ParseMember(input, i, depth), x, m, d)
    ensures Reads(ParseMembers(input, i, depth), [x], m + 1, d)
  {
    hide ParseMember;
  }

  lemma MembersMore(input: Input, i: nat, depth: nat, x: Member<Json>, m: nat, d: nat, rest: seq<Member<Json>>, next: nat, e: nat)
    requires i <= |input.text| && At(input.text, m) == COMMA
    requires Reads(ParseMember(input, i, depth), x, m, d)
    requires Reads(ParseMembers(input, m + 1, depth), rest, next, e)
    ensures Reads(ParseMembers(input, i, depth), [x] + rest, next, Max(d, e))
  {
    hide ParseMember;
  }

  lemma {:induction false} MemberFrom(input: Input, i: nat, j: nat, depth: nat)
    requires i <= |input.text| && j <= |input.text| && SkipSpace(input.text, i) == SkipSpace(input.text, j)
    ensures ParseMember(input, i, depth) == ParseMember(input, j, depth)
  {
    hide ParseValue, SkipSpace, ParseString;
  }

  lemma {:induction false} ReadEntries(input: Input, i: nat, from: nat, entries: seq<Entry>, depth: nat)
    requires entries != [] && Here(input.text, i, EntriesText(entries)) && depth <= NESTING_LIMIT
    requires from <= |input.text| && SkipSpace(input.text, i) == SkipSpace(input.text, from)
    requires forall e | e in entries :: NumeralsRead(e.value, input.strtod)
    ensures Reads(ParseMembers(input, from, depth), TreeEntries(entries), i + |EntriesText(entries)|,
                  depth + NestingMembers(TreeEntries(entries)))
    decreases entries, 2
  {
    hide IsGap, IsNumeral, WithinText, WellSpelled, NumeralsRead, Here, SkipSpace, EntryText, ParseMember, ParseMembers, Tree, Nesting, Reads, StandsAll,
      EntriesText, EntriesRest, TreeEntries, NestingMembers, At, Max;
    if entries[1..] == [] { ReadLastEntry(input, i, from, entries, depth); } else { ReadMoreEntries(input, i, from, entries, depth); }
  }

  lemma {:induction false} ReadLastEntry(input: Input, i: nat, from: nat, entries: seq<Entry>, depth: nat)
    requires |entries| == 1 && Here(input.text, i, EntriesText(entries)) && depth <= NESTING_LIMIT
    requires from <= |input.text| && SkipSpace(input.text, i) == SkipSpace(input.text, from)
    requires forall e | e in entries :: NumeralsRead(e.value, input.strtod)
    ensures Reads(ParseMembers(input, from, depth), TreeEntries(entries), i + |EntriesText(entries)|,
                  depth + NestingMembers(TreeEntries(entries)))
    decreases entries, 1
  {
    hide IsGap, IsNumeral, WithinText, WellSpelled, NumeralsRead, Here, SkipSpace, EntryText, ParseMember, ParseMembers, Tree, Nesting, Reads, StandsAll,
      EntriesText, EntriesRest, TreeEntries, NestingMembers, At, Max;
    var e := entries[0];
    var x := Member(StandsAll(e.name), Tree(e.value));
    EntriesUnfold(entries);
    assert entries[1..] == [];
    NoItems();
    DepthOfMax(depth, Nesting(Tree(e.value)), 0);
    var m := FirstEntry(input, i, from, entries, depth);
    assert [x] + [] == [x];
    MembersLast(input, from, depth, x, m, depth + Nesting(Tree(e.value)));
  }

  lemma {:induction false} ReadMoreEntries(input: Input, i: nat, from: nat, entries: seq<Entry>, depth: nat)
    requires |entries| > 1 && Here(input.text, i, EntriesText(entries)) && depth <= NESTING_LIMIT
    requires from <= |input.text| && SkipSpace(input.text, i) == SkipSpace(input.text, from)
    requires forall e | e in entries :: NumeralsRead(e.value, input.strtod)
    ensures Reads(ParseMembers(input, from, depth), TreeEntries(entries), i + |EntriesText(entries)|,
                  depth + NestingMembers(TreeEntries(entries)))
    decreases entries, 1
  {
    hide IsGap, IsNumeral, WithinText, WellSpelled, NumeralsRead, Here, SkipSpace, EntryText, ParseMember, ParseMembers, Tree, Nesting, Reads, StandsAll,
      EntriesText, EntriesRest, TreeEntries, NestingMembers, At, Max;
    var e, rest := entries[0], entries[1..];
    var x, d := Member(StandsAll(e.name), Tree(e.value)), depth + Nesting(Tree(e.value));
    EntriesUnfold(entries);
    DepthOfMax(depth, Nesting(Tree(e.value)), NestingMembers(TreeEntries(rest)));
    var m := FirstEntry(input, i, from, entries, depth);
    HereSplit(input.text, m, [COMMA], EntriesText(rest));
    ReadEntries(input, m + 1, m + 1, rest, depth);
    MembersMore(input, from, depth, x, m, d,
                TreeEntries(rest), m + 1 + |EntriesText(rest)|, depth + NestingMembers(TreeEntries(rest)));
  }

  /** The first member, and the character after it. */
  lemma {:induction false} FirstEntry(input: Input, i: nat, from: nat, entries: seq<Entry>, depth: nat) returns (m: nat)
    requires entries != [] && Here(input.text, i, EntriesText(entries)) && depth <= NESTING_LIMIT
    requires from <= |input.text| && SkipSpace(input.text, i) == SkipSpace(input.text, from)
    requires forall e | e in entries :: NumeralsRead(e.value, input.strtod)
    ensures var e := entries[0];
            Reads(ParseMember(input, from, depth), Member(StandsAll(e.name), Tree(e.value)), m, depth + Nesting(Tree(e.value)))
    ensures m + |EntriesRest(entries[1..])| == i + |EntriesText(entries)| && Here(input.text, m, EntriesRest(entries[1..]))
    ensures At(input.text, m) == if |entries| == 1 then RIGHT_BRACE else COMMA
    decreases entries, 0
  {
    hide IsGap, IsNumeral, WithinText, WellSpelled, NumeralsRead, Here, SkipSpace, EntryText, ParseMember, Tree, Nesting, Reads, StandsAll, EntriesText, EntriesRest;
    var e, rest := entries[0], entries[1..];
    assert e in entries;
    EntriesUnfold(entries);
    m := ReadEntry(input, i, e, EntriesRest(rest), depth);
    FirstChar(input.text, m, EntriesRest(rest));
    MemberFrom(input, i, from, depth);
  }

  // ---- whole texts ----

  /** A layout between two runs of white space: parsing gives back its tree if its containers nest within the limit, and fails otherwise. */
  lemma ParseLayout(before: gap, l: Layout, after: gap, strtod: Strtod, requireNullTerminated: bool)
    requires NumeralsRead(l, strtod)
    ensures var r := ParseWithOpts(Input(before + (LayoutText(l) + after), strtod), requireNullTerminated);
            if Nesting(Tree(l)) <= NESTING_LIMIT then r.Ok? && r.value == Tree(l) else r.Err?
  {
    hide NumeralsRead, SkipSpace, LayoutText, ParseValue, Tree, Nesting, SkipMark;
    var text := before + (LayoutText(l) + after);
    var n := |before| + |LayoutText(l)|;
    NoMark(before, l, after, strtod);
    ReadWhole(before, l, after, strtod);
    SpaceToEnd(text, n, after);
  }

  lemma ReadWhole(before: gap, l: Layout, after: gap, strtod: Strtod)
    requires NumeralsRead(l, strtod)
    ensures var text := before + (LayoutText(l) + after);
            && SkipSpace(text, 0) == |before|
            && Reads(ParseValue(Input(text, strtod), |before|, 0), Tree(l), |before| + |LayoutText(l)|, Nesting(Tree(l)))
            && Here(text, |before| + |LayoutText(l)|, after)
  {
    hide IsGap, IsNumeral, WithinText, WellSpelled, NumeralsRead, SkipSpace, LayoutText, ParseValue, Tree, Nesting, Here, Reads, NumberChar, At;
    var text, n := before + (LayoutText(l) + after), |before| + |LayoutText(l)|;
    LayoutStart(l, strtod);
    WholePlaces(before, LayoutText(l), after);
    assert |text| == n + |after|;
    EndsThere(text, n, after);
    ReadLayout(Input(text, strtod), |before|, l, 0);
  }

  lemma WholePlaces(before: gap, t: Str, after: gap)
    requires t != [] && t[0] > 32
    ensures var text := before + (t + after);
            && SkipSpace(text, 0) == |before|
            && Here(text, |before|, t) && Here(text, |before| + |t|, after)
  {
    hide SkipSpace, Here;
    var text := before + (t + after);
    WholeText(text);
    GapBefore(text, 0, before, t + after);
    HereSplit(text, |before|, t, after);
  }

  lemma EndsThere(text: Str, n: nat, after: gap)
    requires Here(text, n, after) && n + |after| == |text|
    ensures !NumberChar(At(text, n))
  {
    if after != [] { FirstChar(text, n, after); }
  }

  lemma SpaceToEnd(text: Str, n: nat, after: gap)
    requires Here(text, n, after) && n + |after| == |text|
    ensures SkipSpace(text, n) == |text|
  {
    SkipOver(text, n, after);
  }

  lemma WholeText(text: Str)
    ensures Here(text, 0, text)
  {
  }

  lemma NoMark(before: gap, l: Layout, after: gap, strtod: Strtod)
    requires NumeralsRead(l, strtod)
    ensures SkipMark(before + (LayoutText(l) + after)) == 0
  {
    var text := before + (LayoutText(l) + after);
    LayoutStart(l, strtod);
    assert text[0] == if before != [] then before[0] else LayoutText(l)[0];
    assert text[0] != 0xEF;
    if |text| >= 4 { assert text[..3][0] == text[0]; }
  }
}

/** When minifying keeps a JSON text's meaning: for printed trees, and exactly. */
module MinifyExact {
  import opened Bytes
  import opened Json
  import opened Escapes
  import opened Spellings
  import opened Parsing
  import opened Layouts
  import opened Reading
  import opened Rendering
  import opened Minifying
  import opened Minified

  // ---- printed trees ----

  predicate EndsInBackslash(s: Str) {
    s != [] && s[|s| - 1] == BACKSLASH
  }

  /** No string and no key of the tree ends in a backslash. */
  predicate NoFinalBackslash(v: Json) {
    match v
    case String(s) => !EndsInBackslash(s)
    case Array(items) => forall x | x in items :: NoFinalBackslash(x)
    case Object(members) => forall m | m in members :: MemberPlain(m)
    case _ => true
  }

  predicate MemberPlain(m: Member<Json>) {
    !EndsInBackslash(m.key) && NoFinalBackslash(m.value)
  }

  lemma {:induction false} LastSpelling(s: Str)
    ensures |SpellAll(s)| == |s|
    ensures s != [] ==> SpellAll(s)[|s| - 1] == Spell(s[|s| - 1])
  {
    if s != [] { LastSpelling(s[1..]); }
  }

  lemma PrintedCloses(s: Str)
    ensures ClosesPlainly(SpellText(s)) <==> !EndsInBackslash(s)
  {
    LastSpelling(s);
    if s != [] { OnlyBackslash(s[|s| - 1]); }
  }

  lemma OnlyBackslash(c: cchar)
    ensures Spell(c) == Short(BACKSLASH) <==> c == BACKSLASH
  {
  }

  lemma TabsBlank(n: nat)
    ensures Blanks(Tabs(n)) && Blanks([NEWLINE] + Tabs(n)) && Blanks([SPACE]) && Blanks([TAB]) && Blanks([]) && Blanks([NEWLINE])
  {
  }

  lemma FormattedBlank(format: bool, g: gap)
    requires Blanks(g)
    ensures Blanks(Formatted(format, g)) && Formatted(false, g) == []
  {
  }

  /** What the printer lays out has JSON white space, and is the unformatted print when that is left out. */
  lemma {:induction false} LaidBare(v: Json, format: bool, depth: nat)
    ensures JsonSpaced(Laid(v, format, depth)) && Bare(Laid(v, format, depth)) == Laid(v, false, depth)
    ensures AllClosePlainly(Laid(v, format, depth)) <==> NoFinalBackslash(v)
    decreases v, 1
  {
    hide Tabs, SpellText, ClosesPlainly, EndsInBackslash, Blanks, Formatted;
    TabsBlank(0);
    match v
    case String(s) => PrintedCloses(s);
    case Array(items) => LaidBareItems(items, format, depth + 1, []);
    case Object(members) => LaidBareObject(members, format, depth);
    case _ =>
  }

  lemma {:induction false} LaidBareObject(members: seq<Member<Json>>, format: bool, depth: nat)
    ensures var l := Laid(Object(members), format, depth);
            && JsonSpaced(l) && Bare(l) == Laid(Object(members), false, depth)
            && (AllClosePlainly(l) <==> NoFinalBackslash(Object(members)))
    decreases members, 1
  {
    hide Tabs, Blanks, Formatted, LaidMembers, BareEntries, EntrySpaced, EntryCloses, MemberPlain;
    TabsBlank(depth + 1);
    InsideBlank(members, format, depth);
    FormattedBlank(format, Tabs(depth + 1));
    LaidBareMembers(members, format, depth + 1, Formatted(format, Tabs(depth + 1)));
  }

  lemma InsideBlank(members: seq<Member<Json>>, format: bool, depth: nat)
    ensures Blanks(Formatted(format, [NEWLINE] + (if members == [] then Tabs(depth) else [])))
    ensures Formatted(false, [NEWLINE] + (if members == [] then Tabs(depth) else [])) == []
    ensures Formatted(false, Tabs(depth + 1)) == []
  {
  }

  lemma {:induction false} LaidBareItems(items: seq<Json>, format: bool, depth: nat, before: gap)
    requires Blanks(before)
    ensures forall x | x in LaidItems(items, format, depth, before) :: ItemSpaced(x)
    ensures BareItems(LaidItems(items, format, depth, before)) == LaidItems(items, false, depth, [])
    ensures (forall x | x in LaidItems(items, format, depth, before) :: AllClosePlainly(x.value)) <==>
            (forall x | x in items :: NoFinalBackslash(x))
    decreases items, 0
  {
    hide Laid, JsonSpaced, Bare, AllClosePlainly, NoFinalBackslash, Blanks, Formatted;
    if items != [] {
      TabsBlank(0);
      FormattedBlank(format, [SPACE]);
      LaidBare(items[0], format, depth);
      LaidBareItems(items[1..], format, depth, Formatted(format, [SPACE]));
      var l, rest := Laid(items[0], format, depth), LaidItems(items[1..], format, depth, Formatted(format, [SPACE]));
      AllOf([Item(before, l, [])] + rest, Item(before, l, []), rest, items, items[0], items[1..]);
    }
  }

  lemma AllOf(xs: seq<Item>, x: Item, rest: seq<Item>, vs: seq<Json>, v: Json, others: seq<Json>)
    requires xs == [x] + rest && vs == [v] + others
    requires AllClosePlainly(x.value) <==> NoFinalBackslash(v)
    requires (forall y | y in rest :: AllClosePlainly(y.value)) <==> (forall w | w in others :: NoFinalBackslash(w))
    ensures (forall y | y in xs :: AllClosePlainly(y.value)) <==> (forall w | w in vs :: NoFinalBackslash(w))
  {
    hide AllClosePlainly, NoFinalBackslash;
    assert x in xs && v in vs;
    assert forall y | y in rest :: y in xs;
    assert forall w | w in others :: w in vs;
  }

  lemma {:induction false} LaidBareMembers(members: seq<Member<Json>>, format: bool, depth: nat, before: gap)
    requires Blanks(before) && depth > 0
    ensures forall e | e in LaidMembers(members, format, depth, before) :: EntrySpaced(e)
    ensures BareEntries(LaidMembers(members, format, depth, before)) == LaidMembers(members, false, depth, [])
    ensures (forall e | e in LaidMembers(members, format, depth, before) :: EntryCloses(e)) <==>
            (forall m | m in members :: MemberPlain(m))
    decreases members, 0
  {
    hide Laid, JsonSpaced, Bare, Blanks, Formatted, SpellText, EntryCloses, MemberPlain, EntrySpaced, Tabs, LaidMembers, BareEntries;
    if members == [] {
      NoLaidMembers(format, depth, before);
    } else {
      var between: gap := Formatted(format, [NEWLINE] + Tabs(depth));
      var es, e := LaidEntry(members, format, depth, before);
      TabsBlank(depth);
      FormattedBlank(format, [NEWLINE] + Tabs(depth));
      LaidBareMembers(members[1..], format, depth, between);
      AllMembers(es, e, LaidMembers(members[1..], format, depth, between), members, members[0], members[1..]);
    }
  }

  lemma NoLaidMembers(format: bool, depth: nat, before: gap)
    requires depth > 0
    ensures LaidMembers([], format, depth, before) == [] && LaidMembers([], false, depth, []) == [] && BareEntries([]) == []
  {
  }

  lemma {:induction false} LaidEntry(members: seq<Member<Json>>, format: bool, depth: nat, before: gap) returns (es: seq<Entry>, e: Entry)
    requires Blanks(before) && depth > 0 && members != []
    ensures es == LaidMembers(members, format, depth, before) == [e] + LaidMembers(members[1..], format, depth, Formatted(format, [NEWLINE] + Tabs(depth)))
    ensures EntrySpaced(e) && (EntryCloses(e) <==> MemberPlain(members[0]))
    ensures BareEntries(LaidMembers(members[1..], format, depth, Formatted(format, [NEWLINE] + Tabs(depth)))) == LaidMembers(members[1..], false, depth, []) ==>
              BareEntries(es) == LaidMembers(members, false, depth, [])
    decreases members, 0, 0
  {
    hide Laid, JsonSpaced, Bare, AllClosePlainly, NoFinalBackslash, Blanks, Formatted, SpellText, ClosesPlainly, EndsInBackslash, Tabs;
    es := LaidMembers(members, format, depth, before);
    e := es[0];
    assert es[1..] == LaidMembers(members[1..], format, depth, Formatted(format, [NEWLINE] + Tabs(depth)));
    TabsBlank(depth - 1);
    var end: gap := if |members| == 1 then [NEWLINE] + Tabs(depth - 1) else [];
    FormattedBlank(format, end);
    FormattedBlank(false, end);
    FormattedBlank(format, [TAB]);
    TabsBlank(depth);
    FormattedBlank(false, [NEWLINE] + Tabs(depth));
    LaidBare(members[0].value, format, depth);
    PrintedCloses(members[0].key);
  }

  lemma AllMembers(xs: seq<Entry>, x: Entry, rest: seq<Entry>, vs: seq<Member<Json>>, v: Member<Json>, others: seq<Member<Json>>)
    requires xs == [x] + rest && vs == [v] + others
    requires EntrySpaced(x) && (forall y | y in rest :: EntrySpaced(y))
    requires EntryCloses(x) <==> MemberPlain(v)
    requires (forall y | y in rest :: EntryCloses(y)) <==> (forall w | w in others :: MemberPlain(w))
    ensures forall y | y in xs :: EntrySpaced(y)
    ensures (forall y | y in xs :: EntryCloses(y)) <==> (forall w | w in vs :: MemberPlain(w))
  {
    hide EntryCloses, MemberPlain, EntrySpaced;
    assert x in xs && v in vs;
    assert forall y | y in rest :: y in xs;
    assert forall w | w in others :: w in vs;
  }

  /** Minifying either print of a tree in which no string or key ends in a backslash gives the unformatted print. */
  lemma MinifyPrinted(v: Json, format: bool)
    requires NoFinalBackslash(v)
    ensures Minify(Render(v, format, 0)) == Render(v, false, 0)
  {
    hide Minify, LayoutText, Bare, Laid, Render, JsonSpaced, AllClosePlainly, NoFinalBackslash, Blanks;
    var l := Laid(v, format, 0);
    LaidBare(v, format, 0);
    LaidAsRendered(v, format, 0);
    LaidAsRendered(v, false, 0);
    EmptyBlanks();
    MinifyLayout([], l, []);
    assert [] + (LayoutText(l) + []) == LayoutText(l);
  }

  // ---- the condition is necessary ----

  /** The layout with one space in every place where white space may stand. */
  function Spread(l: Layout): Layout
    decreases l
  {
    match l
    case Items(_, items) => Items([SPACE], SpreadItems(items))
    case Entries(_, entries) => Entries([SPACE], SpreadEntries(entries))
    case _ => l
  }

  function SpreadItems(items: seq<Item>): (r: seq<Item>)
    ensures |r| == |items|
    decreases items
  {
    if items == [] then [] else [Item([SPACE], Spread(items[0].value), [SPACE])] + SpreadItems(items[1..])
  }

  function SpreadEntries(entries: seq<Entry>): (r: seq<Entry>)
    ensures |r| == |entries|
    decreases entries
  {
    if entries == [] then []
    else
      [Entry([SPACE], entries[0].name, [SPACE], [SPACE], Spread(entries[0].value), [SPACE])] + SpreadEntries(entries[1..])
  }

  lemma {:induction false} SpreadBare(l: Layout)
    ensures JsonSpaced(Spread(l)) && Bare(Spread(l)) == Bare(l)
    ensures AllClosePlainly(Spread(l)) <==> AllClosePlainly(l)
    decreases l
  {
    hide AllClosePlainly, EntryCloses, EntrySpaced, ItemSpaced, SpreadItems, SpreadEntries, BareItems, BareEntries;
    OneSpace();
    ClosesParts(l);
    ClosesParts(Spread(l));
    match l
    case Items(_, items) => SpreadBareItems(items);
    case Entries(_, entries) => SpreadBareEntries(entries);
    case _ =>
  }

  lemma {:induction false} SpreadBareItems(items: seq<Item>)
    ensures forall x | x in SpreadItems(items) :: ItemSpaced(x)
    ensures BareItems(SpreadItems(items)) == BareItems(items)
    ensures (forall x | x in SpreadItems(items) :: AllClosePlainly(x.value)) <==> (forall x | x in items :: AllClosePlainly(x.value))
    decreases items
  {
    hide JsonSpaced, Bare, AllClosePlainly, Spread;
    if items != [] {
      SpreadBare(items[0].value);
      SpreadBareItems(items[1..]);
    }
  }

  lemma {:induction false} SpreadBareEntries(entries: seq<Entry>)
    ensures forall e | e in SpreadEntries(entries) :: EntrySpaced(e)
    ensures BareEntries(SpreadEntries(entries)) == BareEntries(entries)
    ensures (forall e | e in SpreadEntries(entries) :: EntryCloses(e)) <==> (forall e | e in entries :: EntryCloses(e))
    decreases entries
  {
    hide JsonSpaced, Bare, AllClosePlainly, Spread, ClosesPlainly;
    if entries != [] {
      SpreadBare(entries[0].value);
      SpreadBareEntries(entries[1..]);
      CloseTogether(SpreadEntries(entries), SpreadEntry(entries[0]), SpreadEntries(entries[1..]), entries, entries[0], entries[1..]);
    }
  }

  lemma CloseTogether(xs: seq<Entry>, x: Entry, rest: seq<Entry>, ys: seq<Entry>, y: Entry, others: seq<Entry>)
    requires xs == [x] + rest && ys == [y] + others
    requires EntryCloses(x) <==> EntryCloses(y)
    requires (forall e | e in rest :: EntryCloses(e)) <==> (forall e | e in others :: EntryCloses(e))
    ensures (forall e | e in xs :: EntryCloses(e)) <==> (forall e | e in ys :: EntryCloses(e))
  {
    hide EntryCloses;
    assert x in xs && y in ys;
    assert forall e | e in rest :: e in xs;
    assert forall e | e in others :: e in ys;
  }

  function SpreadEntry(e: Entry): Entry {
    Entry([SPACE], e.name, [SPACE], [SPACE], Spread(e.value), [SPACE])
  }

  /** The first text has white space where the second has none, or has ended. */
  ghost predicate Departs(a: Str, b: Str) {
    exists k: nat :: k < |a| && k <= |b| && a[..k] == b[..k] && BlankOnly(a, b, k)
  }

  predicate BlankOnly(a: Str, b: Str, k: nat) {
    k < |a| && Blank(a[k]) && (k < |b| ==> !Blank(b[k]))
  }

  lemma DepartsDiffers(a: Str, b: Str)
    requires Departs(a, b)
    ensures a != b
  {
  }

  lemma DepartsAfter(x: Str, a: Str, b: Str)
    requires Departs(a, b)
    ensures Departs(x + a, x + b)
  {
    var k: nat :| k < |a| && k <= |b| && a[..k] == b[..k] && BlankOnly(a, b, k);
    var n: nat := |x| + k;
    assert (x + a)[..n] == x + a[..k] && (x + b)[..n] == x + b[..k];
    assert BlankOnly(x + a, x + b, n);
  }

  lemma DepartsBefore(a: Str, b: Str, rest: Str)
    requires Departs(a, b) && (rest == [] || !Blank(rest[0]))
    ensures Departs(a, b + rest)
  {
    var k: nat :| k < |a| && k <= |b| && a[..k] == b[..k] && BlankOnly(a, b, k);
    assert (b + rest)[..k] == b[..k];
    assert BlankOnly(a, b + rest, k);
  }

  /** As `Departs`, with no quote and no backslash before that. */
  ghost predicate Strays(a: Str, b: Str) {
    exists k: nat :: k < |a| && k <= |b| && a[..k] == b[..k] && PlainText(a[..k]) && BlankOnly(a, b, k)
  }

  /** After an escaped backslash the closing quote is missed, and what follows is copied, white space included. */
  lemma DepartsLiteral(t: Str, i: nat, q: seq<spelling>, rest: Str, b: Str)
    requires !ClosesPlainly(q) && Here(t, i, QuotedText(q) + rest) && Strays(rest, b)
    ensures Departs(MinifyFrom(t, i), QuotedText(q) + b)
  {
    hide MinifyFrom, QuotedText, StringEnd, ClosesPlainly, Departs, Here;
    var k: nat :| k < |rest| && k <= |b| && rest[..k] == b[..k] && PlainText(rest[..k]) && BlankOnly(rest, b, k);
    var s := QuotedText(q);
    HereSplit(t, i, s, rest);
    ScanPast(t, i, q, rest, k);
    MinifyQuote(t, i);
    CopiedBlank(t, i, s, rest, b, k, StringEnd(t, i + 1), MinifyFrom(t, StringEnd(t, i + 1)));
  }

  /** The minifier is still in the string after the text that follows the missed quote. */
  lemma ScanPast(t: Str, i: nat, q: seq<spelling>, rest: Str, k: nat)
    requires !ClosesPlainly(q) && Here(t, i, QuotedText(q)) && Here(t, i + |QuotedText(q)|, rest)
    requires k < |rest| && PlainText(rest[..k]) && Blank(rest[k])
    ensures i < |t| && t[i] == QUOTE && i + |QuotedText(q)| + k < StringEnd(t, i + 1) <= |t|
  {
    hide WrittenAll, ClosesPlainly, Here;
    var end := i + |QuotedText(q)|;
    FirstChar(t, i, QuotedText(q));
    HereSplit(t, i, [QUOTE], WrittenAll(q) + [QUOTE]);
    ScanLiteral(t, i + 1, q);
    assert rest == rest[..k] + rest[k..];
    HereSplit(t, end, rest[..k], rest[k..]);
    ScanRest(t, end, rest[..k]);
    FirstChar(t, end + k, rest[k..]);
  }

  lemma CopiedBlank(t: Str, i: nat, s: Str, rest: Str, b: Str, k: nat, e: nat, others: Str)
    requires Here(t, i, s) && Here(t, i + |s|, rest) && k <= |b| && k < |rest| && rest[..k] == b[..k] && BlankOnly(rest, b, k)
    requires i + |s| + k < e <= |t|
    ensures Departs(t[i..e] + others, s + b)
  {
    var n, a := |s| + k, t[i..e] + others;
    assert a[..n] == t[i..i + n] == t[i..i + |s|] + t[i + |s|..i + n];
    assert t[i + |s|..i + n] == t[i + |s|..i + |s| + |rest|][..k] == rest[..k];
    assert (s + b)[..n] == s + b[..k];
    assert a[n] == t[i + n] == t[i + |s|..i + |s| + |rest|][k] == rest[k];
    assert BlankOnly(a, s + b, n);
  }

  lemma SpaceStrays(rest: Str)
    ensures Strays([SPACE] + rest, [])
  {
    assert BlankOnly([SPACE] + rest, [], 0);
  }

  lemma {:induction false} DepartsLayout(t: Str, i: nat, l: Layout, rest: Str)
    requires !AllClosePlainly(l) && Here(t, i, LayoutText(Spread(l)) + ([SPACE] + rest))
    ensures Departs(MinifyFrom(t, i), LayoutText(Bare(l)))
    decreases l, 3
  {
    hide Here, MinifyFrom, Departs, EntryCloses, QuotedText, ClosesPlainly, Writes;
    HereSplit(t, i, LayoutText(Spread(l)), [SPACE] + rest);
    OneSpace();
    match l
    case Quoted(q) =>
      SpaceStrays(rest);
      DepartsLiteral(t, i, q, [SPACE] + rest, []);
      assert QuotedText(q) + [] == QuotedText(q);
    case Items(_, items) =>
      WritesOpening(t, i, LEFT_BRACKET, [SPACE], ItemsText(SpreadItems(items)));
      DepartsItems(t, i + 2, items);
      DepartsPast(t, i, [LEFT_BRACKET], i + 2, ItemsText(BareItems(items)));
      assert [LEFT_BRACKET] + ([] + ItemsText(BareItems(items))) == [LEFT_BRACKET] + ItemsText(BareItems(items));
    case Entries(_, entries) =>
      WritesOpening(t, i, LEFT_BRACE, [SPACE], EntriesText(SpreadEntries(entries)));
      DepartsEntries(t, i + 2, entries);
      DepartsPast(t, i, [LEFT_BRACE], i + 2, EntriesText(BareEntries(entries)));
      assert [LEFT_BRACE] + ([] + EntriesText(BareEntries(entries))) == [LEFT_BRACE] + EntriesText(BareEntries(entries));
  }

  lemma OneSpace()
    ensures Blanks([SPACE])
  {
  }

  lemma DepartsPast(t: Str, i: nat, s: Str, j: nat, b: Str)
    requires Writes(t, i, s, j) && Departs(MinifyFrom(t, j), b)
    ensures Departs(MinifyFrom(t, i), s + b)
  {
    hide MinifyFrom, Departs;
    DepartsAfter(s, MinifyFrom(t, j), b);
  }

  lemma {:induction false} DepartsItems(t: Str, i: nat, items: seq<Item>)
    requires exists x :: x in items && !AllClosePlainly(x.value)
    requires Here(t, i, ItemsText(SpreadItems(items)))
    ensures Departs(MinifyFrom(t, i), ItemsText(BareItems(items)))
    decreases items, 2
  {
    hide Here, MinifyFrom, Departs, AllClosePlainly, Bare, Spread, LayoutText, Writes, ItemsRest;
    var x, rest := items[0], items[1..];
    var s := LayoutText(Spread(x.value));
    SpreadItemsText(items);
    OneSpace();
    HereSplit(t, i, [SPACE], s + ([SPACE] + ItemsRest(SpreadItems(rest))));
    WritesGap(t, i, [SPACE]);
    BareItemsText(items);
    if AllClosePlainly(x.value) {
      SpreadBare(x.value);
      HereSplit(t, i + 1, s, [SPACE] + ItemsRest(SpreadItems(rest)));
      WritesLayout(t, i + 1, Spread(x.value));
      WritesPart(t, i, [SPACE], s, LayoutText(Bare(x.value)), [SPACE], ItemsRest(SpreadItems(rest)));
      DepartsItemsRest(t, i + 1 + |s| + 1, rest);
      DepartsPast(t, i, LayoutText(Bare(x.value)), i + 1 + |s| + 1, ItemsRest(BareItems(rest)));
    } else {
      DepartsLayout(t, i + 1, x.value, ItemsRest(SpreadItems(rest)));
      RestStart(BareItems(rest), BareEntries([]));
      DepartsBefore(MinifyFrom(t, i + 1), LayoutText(Bare(x.value)), ItemsRest(BareItems(rest)));
      DepartsPast(t, i, [], i + 1, LayoutText(Bare(x.value)) + ItemsRest(BareItems(rest)));
      assert [] + (LayoutText(Bare(x.value)) + ItemsRest(BareItems(rest))) == LayoutText(Bare(x.value)) + ItemsRest(BareItems(rest));
    }
  }

  lemma RestStart(items: seq<Item>, entries: seq<Entry>)
    ensures ItemsRest(items) != [] && !Blank(ItemsRest(items)[0])
    ensures EntriesRest(entries) != [] && !Blank(EntriesRest(entries)[0])
  {
  }

  lemma SpreadItemsText(items: seq<Item>)
    requires items != []
    ensures ItemsText(SpreadItems(items)) ==
            [SPACE] + (LayoutText(Spread(items[0].value)) + ([SPACE] + ItemsRest(SpreadItems(items[1..]))))
  {
    hide LayoutText, Spread, ItemsRest;
    assert SpreadItems(items)[1..] == SpreadItems(items[1..]);
  }

  lemma {:induction false} DepartsItemsRest(t: Str, i: nat, items: seq<Item>)
    requires exists x :: x in items && !AllClosePlainly(x.value)
    requires Here(t, i, ItemsRest(SpreadItems(items)))
    ensures Departs(MinifyFrom(t, i), ItemsRest(BareItems(items)))
    decreases items, 3
  {
    hide Here, MinifyFrom, Departs, AllClosePlainly, ItemsText, Writes, SpreadItems, BareItems;
    HereSplit(t, i, [COMMA], ItemsText(SpreadItems(items)));
    WritesRun(t, i, [COMMA]);
    DepartsItems(t, i + 1, items);
    DepartsPast(t, i, [COMMA], i + 1, ItemsText(BareItems(items)));
  }

  lemma {:induction false} DepartsEntries(t: Str, i: nat, entries: seq<Entry>)
    requires exists e :: e in entries && !EntryCloses(e)
    requires Here(t, i, EntriesText(SpreadEntries(entries)))
    ensures Departs(MinifyFrom(t, i), EntriesText(BareEntries(entries)))
    decreases entries, 2
  {
    hide Here, MinifyFrom, Departs, EntryCloses, Bare, Spread, LayoutText, Writes, EntriesRest, EntryText, BareEntryText;
    var e, rest := entries[0], entries[1..];
    var spread, tail := SpreadEntry(e), EntriesRest(SpreadEntries(rest));
    assert SpreadEntries(entries) == [spread] + SpreadEntries(rest);
    assert SpreadEntries(entries)[1..] == SpreadEntries(rest);
    BareEntriesText(entries);
    var bare := EntriesRest(BareEntries(rest));
    if EntryCloses(e) {
      SpreadEntryCloses(e);
      WritesEntry(t, i, spread, tail);
      var m := i + |EntryText(spread, tail)| - |tail|;
      DepartsEntriesRest(t, m, rest);
      DepartsPast(t, i, BareEntryText(e, []), m, bare);
    } else {
      DepartsEntry(t, i, e, tail);
      RestStart([], BareEntries(rest));
      DepartsBefore(MinifyFrom(t, i), BareEntryText(e, []), bare);
    }
  }

  lemma SpreadEntryCloses(e: Entry)
    requires EntryCloses(e)
    ensures EntryCloses(SpreadEntry(e)) && EntrySpaced(SpreadEntry(e)) && BareEntryText(SpreadEntry(e), []) == BareEntryText(e, [])
  {
    SpreadBare(e.value);
  }

  /** A member whose name or value does not close plainly. */
  lemma {:induction false} DepartsEntry(t: Str, i: nat, e: Entry, tail: Str)
    requires !EntryCloses(e) && Here(t, i, EntryText(SpreadEntry(e), tail))
    ensures Departs(MinifyFrom(t, i), BareEntryText(e, []))
    decreases e, 2
  {
    hide Here, MinifyFrom, Departs, AllClosePlainly, ClosesPlainly, Bare, Spread, LayoutText, QuotedText, Writes;
    var q, v := QuotedText(e.name), LayoutText(Spread(e.value));
    var afterName := [COLON] + ([SPACE] + (v + ([SPACE] + tail)));
    var bare := [COLON] + LayoutText(Bare(e.value));
    assert [COLON] + (LayoutText(Bare(e.value)) + []) == bare;
    OneSpace();
    HereSplit(t, i, [SPACE], q + ([SPACE] + afterName));
    WritesGap(t, i, [SPACE]);
    if ClosesPlainly(e.name) {
      PartHere(t, i, [SPACE], q, [SPACE] + afterName);
      WritesLiteral(t, i + 1, e.name);
      WritesPart(t, i, [SPACE], q, q, [SPACE], afterName);
      var m := i + 1 + |q| + 1;
      WritesOpening(t, m, COLON, [SPACE], v + ([SPACE] + tail));
      DepartsLayout(t, m + 2, e.value, tail);
      DepartsPast(t, m, [COLON], m + 2, LayoutText(Bare(e.value)));
      DepartsPast(t, i, q, m, bare);
    } else {
      SpaceStrays(afterName);
      DepartsLiteral(t, i + 1, e.name, [SPACE] + afterName, []);
      assert q + [] == q;
      DepartsBefore(MinifyFrom(t, i + 1), q, bare);
      DepartsPast(t, i, [], i + 1, q + bare);
      assert [] + (q + bare) == q + bare;
    }
  }

  lemma {:induction false} DepartsEntriesRest(t: Str, i: nat, entries: seq<Entry>)
    requires exists e :: e in entries && !EntryCloses(e)
    requires Here(t, i, EntriesRest(SpreadEntries(entries)))
    ensures Departs(MinifyFrom(t, i), EntriesRest(BareEntries(entries)))
    decreases entries, 3
  {
    hide Here, MinifyFrom, Departs, EntryCloses, EntriesText, Writes, SpreadEntries, BareEntries;
    HereSplit(t, i, [COMMA], EntriesText(SpreadEntries(entries)));
    WritesRun(t, i, [COMMA]);
    DepartsEntries(t, i + 1, entries);
    DepartsPast(t, i, [COMMA], i + 1, EntriesText(BareEntries(entries)));
  }

  /** If `k` is `l` with other white space, it minifies, between two more runs of white space, to `l` without any. */
  ghost predicate MinifiesAs(before: gap, k: Layout, after: gap, l: Layout) {
    Blanks(before) && JsonSpaced(k) && Blanks(after) && Bare(k) == Bare(l) ==>
      Minify(before + (LayoutText(k) + after)) == LayoutText(Bare(l))
  }

  /** However white space is put between the tokens of a text, minifying takes exactly that away, if and only if no closing quote follows an escaped backslash. */
  lemma MinifyExactly(l: Layout)
    ensures (forall before, k, after :: MinifiesAs(before, k, after, l)) <==> AllClosePlainly(l)
  {
    hide Minify, LayoutText, Bare, JsonSpaced, AllClosePlainly, Blanks, Spread;
    if AllClosePlainly(l) {
      forall before: gap, k: Layout, after: gap
        ensures MinifiesAs(before, k, after, l)
      {
        if Blanks(before) && JsonSpaced(k) && Blanks(after) && Bare(k) == Bare(l) {
          SameCloses(k, l);
          MinifyLayout(before, k, after);
        }
      }
    } else {
      SpreadBare(l);
      OneSpace();
      EmptyBlanks();
      SpreadFails(l);
      assert !MinifiesAs([], Spread(l), [SPACE], l);
    }
  }

  lemma SpreadFails(l: Layout)
    requires !AllClosePlainly(l)
    ensures Minify([] + (LayoutText(Spread(l)) + [SPACE])) != LayoutText(Bare(l))
  {
    hide MinifyFrom, LayoutText, Bare, AllClosePlainly, Spread, Departs, Here;
    var t := LayoutText(Spread(l)) + [SPACE];
    assert [] + t == t && LayoutText(Spread(l)) + ([SPACE] + []) == t;
    WholeText(t);
    DepartsLayout(t, 0, l, []);
    DepartsDiffers(MinifyFrom(t, 0), LayoutText(Bare(l)));
  }

  /** Whether quotes close plainly does not depend on white space. */
  lemma SameCloses(k: Layout, l: Layout)
    requires Bare(k) == Bare(l)
    ensures AllClosePlainly(k) <==> AllClosePlainly(l)
  {
    hide Bare, AllClosePlainly;
    BareCloses(k);
    BareCloses(l);
  }

  lemma {:induction false} BareCloses(l: Layout)
    ensures AllClosePlainly(Bare(l)) <==> AllClosePlainly(l)
    decreases l
  {
    hide AllClosePlainly, EntryCloses, BareItems, BareEntries;
    ClosesParts(l);
    ClosesParts(Bare(l));
    match l
    case Items(_, items) => BareClosesItems(items);
    case Entries(_, entries) => BareClosesEntries(entries);
    case _ =>
  }

  lemma ClosesParts(l: Layout)
    ensures l.Items? ==> (AllClosePlainly(l) <==> forall x | x in l.items :: AllClosePlainly(x.value))
    ensures l.Entries? ==> (AllClosePlainly(l) <==> forall e | e in l.entries :: EntryCloses(e))
  {
  }

  lemma {:induction false} BareClosesItems(items: seq<Item>)
    ensures (forall x | x in BareItems(items) :: AllClosePlainly(x.value)) <==> (forall x | x in items :: AllClosePlainly(x.value))
    decreases items
  {
    hide Bare, AllClosePlainly;
    if items != [] {
      BareCloses(items[0].value);
      BareClosesItems(items[1..]);
    }
  }

  lemma {:induction false} BareClosesEntries(entries: seq<Entry>)
    ensures (forall e | e in BareEntries(entries) :: EntryCloses(e)) <==> (forall e | e in entries :: EntryCloses(e))
    decreases entries
  {
    hide Bare, AllClosePlainly, ClosesPlainly;
    if entries != [] {
      BareCloses(entries[0].value);
      BareClosesEntries(entries[1..]);
      CloseTogether(BareEntries(entries), BareEntries(entries)[0], BareEntries(entries[1..]), entries, entries[0], entries[1..]);
    }
  }
}

/** What minifying does to JSON texts, and when it does it. */
module Minified {
  import opened Bytes
  import opened Pointers
  import opened Escapes
  import opened Spellings
  import opened Parsing
  import opened Layouts
  import opened Reading
  import opened Minifying

  // ---- minifying twice ----

  /** A string is copied whole, so the copy ends where the original did. */
  lemma {:induction false} StringEndOfCopy(t: Str, i: nat, m: Str, k: nat)
    requires i <= |t| && k + (StringEnd(t, i) - i) <= |m|
    requires m[k..k + (StringEnd(t, i) - i)] == t[i..StringEnd(t, i)]
    requires StringEnd(t, i) == |t| ==> k + (|t| - i) == |m|
    ensures StringEnd(m, k) == k + (StringEnd(t, i) - i)
    decreases |t| - i
  {
    var e := StringEnd(t, i);
    if i < |t| {
      assert m[k..k + (e - i)][0] == t[i..e][0];
      if t[i] != QUOTE {
        var step := if t[i] == BACKSLASH && At(t, i + 1) == QUOTE then 2 else 1;
        assert e == StringEnd(t, i + step);
        if i + 1 < e { assert m[k..k + (e - i)][1] == t[i..e][1]; }
        assert m[k + step..k + (e - i)] == m[k..k + (e - i)][step..];
        StringEndOfCopy(t, i + step, m, k + step);
      }
    }
  }

  lemma {:induction false} MinifyOfMinified(t: Str, i: nat, m: Str, k: nat)
    requires i <= |t| && k <= |m| && m[k..] == MinifyFrom(t, i)
    ensures MinifyFrom(m, k) == m[k..]
    decreases |t| - i
  {
    hide LineEnd, BlockEnd;
    if i < |t| {
      if Blank(t[i]) {
        MinifyOfMinified(t, i + 1, m, k);
      } else if t[i] == SLASH {
        MinifyOfMinified(t, if At(t, i + 1) == SLASH then LineEnd(t, i + 2) else if At(t, i + 1) == STAR then BlockEnd(t, i + 2) else i + 1, m, k);
      } else if t[i] == QUOTE {
        MinifyOfString(t, i, m, k);
      } else {
        assert m[k] == m[k..][0];
        assert m[k + 1..] == m[k..][1..];
        MinifyOfMinified(t, i + 1, m, k + 1);
        assert m[k..] == [m[k]] + m[k + 1..];
      }
    }
  }

  lemma {:induction false} MinifyOfString(t: Str, i: nat, m: Str, k: nat)
    requires i < |t| && k <= |m| && m[k..] == MinifyFrom(t, i) && t[i] == QUOTE
    ensures MinifyFrom(m, k) == m[k..]
    decreases |t| - i, 0
  {
    hide StringEnd, MinifyFrom;
    var e := StringEnd(t, i + 1);
    var n := e - i;
    MinifyQuote(t, i);
    CopyPlaces(t, i, e, m, k, MinifyFrom(t, e));
    StringEndOfCopy(t, i + 1, m, k + 1);
    MinifyQuote(m, k);
    MinifyOfMinified(t, e, m, k + n);
    assert m[k..] == m[k..k + n] + m[k + n..];
  }

  lemma MinifyQuote(t: Str, i: nat)
    requires i < |t| && t[i] == QUOTE
    ensures MinifyFrom(t, i) == t[i..StringEnd(t, i + 1)] + MinifyFrom(t, StringEnd(t, i + 1))
    ensures MinifyFrom(t, |t|) == []
  {
  }

  lemma CopyPlaces(t: Str, i: nat, e: nat, m: Str, k: nat, rest: Str)
    requires i < e <= |t| && k <= |m| && m[k..] == t[i..e] + rest
    ensures k + (e - i) <= |m| && m[k] == t[i]
    ensures m[k..k + (e - i)] == t[i..e] && m[k + 1..k + (e - i)] == t[i + 1..e] && m[k + (e - i)..] == rest
  {
    var n := e - i;
    assert m[k..k + n] == m[k..][..n];
    assert m[k + n..] == m[k..][n..];
    assert m[k] == m[k..][0];
    assert m[k + 1..k + n] == m[k..k + n][1..];
  }

  /** On every text, minifying twice is minifying once. */
  lemma MinifyTwice(t: Str)
    ensures Minify(Minify(t)) == Minify(t)
  {
    MinifyOfMinified(t, 0, Minify(t), 0);
  }

  // ---- JSON texts ----

  predicate Blanks(g: gap) {
    forall i | 0 <= i < |g| :: Blank(g[i])
  }

  /** All white space is that of section 2 of RFC 8259. */
  predicate JsonSpaced(l: Layout) {
    match l
    case Items(inside, items) => Blanks(inside) && forall x | x in items :: ItemSpaced(x)
    case Entries(inside, entries) => Blanks(inside) && forall e | e in entries :: EntrySpaced(e)
    case _ => true
  }

  predicate ItemSpaced(x: Item) {
    Blanks(x.before) && JsonSpaced(x.value) && Blanks(x.after)
  }

  predicate EntrySpaced(e: Entry) {
    Blanks(e.before) && Blanks(e.beforeColon) && Blanks(e.afterColon) && JsonSpaced(e.value) && Blanks(e.after)
  }

  /** The closing quote does not stand after an escaped backslash. */
  predicate ClosesPlainly(q: seq<spelling>) {
    q == [] || q[|q| - 1] != Short(BACKSLASH)
  }

  predicate AllClosePlainly(l: Layout) {
    match l
    case Quoted(q) => ClosesPlainly(q)
    case Items(_, items) => forall x | x in items :: AllClosePlainly(x.value)
    case Entries(_, entries) => forall e | e in entries :: EntryCloses(e)
    case _ => true
  }

  predicate EntryCloses(e: Entry) {
    ClosesPlainly(e.name) && AllClosePlainly(e.value)
  }

  /** The layout with its white space left out. */
  function Bare(l: Layout): Layout
    decreases l
  {
    match l
    case Items(_, items) => Items([], BareItems(items))
    case Entries(_, entries) => Entries([], BareEntries(entries))
    case _ => l
  }

  function BareItems(items: seq<Item>): (r: seq<Item>)
    ensures |r| == |items|
    decreases items
  {
    if items == [] then [] else [Item([], Bare(items[0].value), [])] + BareItems(items[1..])
  }

  function BareEntries(entries: seq<Entry>): (r: seq<Entry>)
    ensures |r| == |entries|
    decreases entries
  {
    if entries == [] then []
    else [Entry([], entries[0].name, [], [], Bare(entries[0].value), [])] + BareEntries(entries[1..])
  }

  // ---- minifying the parts ----

  /** From a place in a text the minifier writes `s`, and goes on at a later place. */
  ghost predicate Writes(t: Str, i: nat, s: Str, j: nat) {
    i <= j <= |t| && MinifyFrom(t, i) == s + MinifyFrom(t, j)
  }

  lemma WritesThen(t: Str, i: nat, a: Str, j: nat, b: Str, k: nat)
    requires Writes(t, i, a, j) && Writes(t, j, b, k)
    ensures Writes(t, i, a + b, k)
  {
    hide MinifyFrom;
    assert a + (b + MinifyFrom(t, k)) == (a + b) + MinifyFrom(t, k);
  }

  lemma {:induction false} WritesGap(t: Str, i: nat, g: gap)
    requires Blanks(g) && Here(t, i, g)
    ensures Writes(t, i, [], i + |g|)
    decreases |g|
  {
    if g != [] {
      FirstChar(t, i, g);
      assert g == [g[0]] + g[1..];
      HereSplit(t, i, [g[0]], g[1..]);
      assert Blanks(g[1..]);
      WritesGap(t, i + 1, g[1..]);
    }
  }

  predicate Copied(c: byte) {
    !Blank(c) && c != SLASH && c != QUOTE
  }

  lemma {:induction false} WritesRun(t: Str, i: nat, s: Str)
    requires Here(t, i, s) && forall k | 0 <= k < |s| :: Copied(s[k])
    ensures Writes(t, i, s, i + |s|)
    decreases |s|
  {
    if s != [] {
      FirstChar(t, i, s);
      assert s == [s[0]] + s[1..];
      HereSplit(t, i, [s[0]], s[1..]);
      WritesRun(t, i + 1, s[1..]);
    }
  }

  lemma {:induction false} ScanRest(t: Str, i: nat, s: Str)
    requires Here(t, i, s) && forall k | 0 <= k < |s| :: s[k] != QUOTE && s[k] != BACKSLASH
    ensures StringEnd(t, i) == StringEnd(t, i + |s|)
    decreases |s|
  {
    if s != [] {
      FirstChar(t, i, s);
      assert s == [s[0]] + s[1..];
      HereSplit(t, i, [s[0]], s[1..]);
      ScanRest(t, i + 1, s[1..]);
    }
  }

  predicate PlainText(s: Str) {
    forall k | 0 <= k < |s| :: s[k] != QUOTE && s[k] != BACKSLASH
  }

  lemma HexIsPlain(s: Str)
    requires HexText(s)
    ensures PlainText(s) && |s| == 4
  {
  }

  lemma ScanUnit(t: Str, i: nat, digits: Str)
    requires HexText(digits) && Here(t, i, [BACKSLASH, LETTER_U] + digits)
    ensures StringEnd(t, i) == StringEnd(t, i + 6)
  {
    hide Here;
    HereSplit(t, i, [BACKSLASH, LETTER_U], digits);
    HereAt(t, i, [BACKSLASH, LETTER_U]);
    assert At(t, i + 0) == BACKSLASH && At(t, i + 1) == LETTER_U;
    HexIsPlain(digits);
    ScanRest(t, i + 2, digits);
  }

  lemma ScanShort(t: Str, i: nat, c: cchar)
    requires Here(t, i, [BACKSLASH, c]) && (c == BACKSLASH ==> At(t, i + 2) != QUOTE)
    ensures StringEnd(t, i) == StringEnd(t, i + 2)
  {
    HereAt(t, i, [BACKSLASH, c]);
    assert At(t, i + 0) == BACKSLASH && At(t, i + 1) == c;
  }

  lemma ScanPair(t: Str, i: nat, high: Str, low: Str)
    requires HexText(high) && HexText(low) && Here(t, i, ([BACKSLASH, LETTER_U] + high) + ([BACKSLASH, LETTER_U] + low))
    ensures StringEnd(t, i) == StringEnd(t, i + 12)
  {
    hide Here, StringEnd;
    HexIsPlain(high);
    HereSplit(t, i, [BACKSLASH, LETTER_U] + high, [BACKSLASH, LETTER_U] + low);
    ScanUnit(t, i, high);
    ScanUnit(t, i + 6, low);
  }

  /** What a spelling looks like; an escape has six characters. */
  lemma WrittenParts(sp: spelling)
    ensures match sp
            case Plain(c) => Written(sp) == [c] && c != QUOTE && c != BACKSLASH
            case Short(c) => Written(sp) == [BACKSLASH, c]
            case Unicode(digits) => HexText(digits) && Written(sp) == [BACKSLASH, LETTER_U] + digits && |Written(sp)| == 6
            case Pair(high, low) =>
              && HexText(high) && HexText(low) && |Written(sp)| == 12
              && Written(sp) == ([BACKSLASH, LETTER_U] + high) + ([BACKSLASH, LETTER_U] + low)
  {
    match sp
    case Unicode(digits) => HexIsPlain(digits);
    case Pair(high, low) =>
      HexIsPlain(high);
      HexIsPlain(low);
      assert Written(sp) == ([BACKSLASH, LETTER_U] + high) + ([BACKSLASH, LETTER_U] + low);
    case _ =>
  }

  /** The minifier passes over a spelled character, unless it is an escaped backslash before a quote. */
  lemma ScanSpelling(t: Str, i: nat, sp: spelling)
    requires Here(t, i, Written(sp)) && (sp == Short(BACKSLASH) ==> At(t, i + 2) != QUOTE)
    ensures StringEnd(t, i) == StringEnd(t, i + |Written(sp)|)
  {
    hide Here, Written, WellSpelled;
    WrittenParts(sp);
    match sp
    case Plain(c) => FirstChar(t, i, [c]);
    case Short(c) => ScanShort(t, i, c);
    case Unicode(digits) => ScanUnit(t, i, digits);
    case Pair(high, low) => ScanPair(t, i, high, low);
  }

  lemma SpellingStart(q: seq<spelling>)
    requires q != []
    ensures WrittenAll(q) != [] && WrittenAll(q)[0] != QUOTE
  {
  }

  /** The minifier's end of a literal is its end; if an escaped backslash stands before the closing quote, it is past it. */
  lemma {:induction false} ScanLiteral(t: Str, i: nat, q: seq<spelling>)
    requires Here(t, i, WrittenAll(q) + [QUOTE])
    ensures var end := i + |WrittenAll(q)| + 1;
            && end <= |t|
            && (ClosesPlainly(q) ==> StringEnd(t, i) == end)
            && (!ClosesPlainly(q) ==> StringEnd(t, i) == StringEnd(t, end))
    decreases |q|, 1
  {
    if q == [] {
      assert WrittenAll(q) + [QUOTE] == [QUOTE];
      FirstChar(t, i, [QUOTE]);
    } else {
      ScanLiteralStep(t, i, q);
    }
  }

  lemma {:induction false} ScanLiteralStep(t: Str, i: nat, q: seq<spelling>)
    requires q != [] && Here(t, i, WrittenAll(q) + [QUOTE])
    ensures var end := i + |WrittenAll(q)| + 1;
            && end <= |t|
            && (ClosesPlainly(q) ==> StringEnd(t, i) == end)
            && (!ClosesPlainly(q) ==> StringEnd(t, i) == StringEnd(t, end))
    decreases |q|, 0
  {
    hide Here, Written, HexText, StringEnd;
    var e, rest := Written(q[0]), WrittenAll(q[1..]);
    assert WrittenAll(q) + [QUOTE] == e + (rest + [QUOTE]);
    HereSplit(t, i, e, rest + [QUOTE]);
    FirstChar(t, i + |e|, rest + [QUOTE]);
    ShortLength(q[0]);
    if |q| == 1 && q[0] == Short(BACKSLASH) {
      assert rest + [QUOTE] == [QUOTE];
      LastBackslash(t, i);
    } else {
      if |q| > 1 { SpellingStart(q[1..]); }
      ScanSpelling(t, i, q[0]);
      ScanLiteral(t, i + |e|, q[1..]);
    }
  }

  lemma ShortLength(sp: spelling)
    ensures sp == Short(BACKSLASH) ==> Written(sp) == [BACKSLASH, BACKSLASH]
  {
  }

  lemma LastBackslash(t: Str, i: nat)
    requires Here(t, i, Written(Short(BACKSLASH))) && Here(t, i + 2, [QUOTE])
    ensures i + 3 <= |t| && StringEnd(t, i) == StringEnd(t, i + 3)
  {
    var e := Written(Short(BACKSLASH));
    HereAt(t, i, e);
    assert At(t, i + 0) == e[0] && At(t, i + 1) == e[1];
    FirstChar(t, i + 2, [QUOTE]);
  }

  lemma WritesLiteral(t: Str, i: nat, q: seq<spelling>)
    requires ClosesPlainly(q) && Here(t, i, QuotedText(q))
    ensures Writes(t, i, QuotedText(q), i + |QuotedText(q)|)
  {
    hide StringEnd, WrittenAll;
    FirstChar(t, i, QuotedText(q));
    HereSplit(t, i, [QUOTE], WrittenAll(q) + [QUOTE]);
    ScanLiteral(t, i + 1, q);
  }

  // ---- minifying a layout ----

  lemma {:induction false} WritesLayout(t: Str, i: nat, l: Layout)
    requires JsonSpaced(l) && AllClosePlainly(l) && Here(t, i, LayoutText(l))
    ensures Writes(t, i, LayoutText(Bare(l)), i + |LayoutText(l)|)
    decreases l, 3
  {
    hide Here, Writes, StringEnd, MinifyFrom, ItemsText, EntriesText, BareItems, BareEntries, ItemSpaced, EntrySpaced, EntryCloses, ClosesPlainly;
    match l
    case Quoted(q) => WritesLiteral(t, i, q);
    case Items(inside, items) => WritesArray(t, i, inside, items);
    case Entries(inside, entries) => WritesObject(t, i, inside, entries);
    case _ => WritesRun(t, i, LayoutText(l));
  }

  lemma {:induction false} WritesArray(t: Str, i: nat, inside: gap, items: seq<Item>)
    requires Blanks(inside) && (forall x | x in items :: ItemSpaced(x)) && (forall x | x in items :: AllClosePlainly(x.value))
    requires Here(t, i, [LEFT_BRACKET] + (inside + ItemsText(items)))
    ensures Writes(t, i, [LEFT_BRACKET] + ([] + ItemsText(BareItems(items))), i + 1 + |inside| + |ItemsText(items)|)
    decreases items, 4
  {
    hide Here, Writes, ItemsText, BareItems, ItemSpaced, AllClosePlainly, Blanks;
    WritesOpening(t, i, LEFT_BRACKET, inside, ItemsText(items));
    var m := i + 1 + |inside|;
    WritesItems(t, m, items);
    WritesThen(t, i, [LEFT_BRACKET], m, ItemsText(BareItems(items)), m + |ItemsText(items)|);
    assert [LEFT_BRACKET] + ([] + ItemsText(BareItems(items))) == [LEFT_BRACKET] + ItemsText(BareItems(items));
  }

  lemma {:induction false} WritesObject(t: Str, i: nat, inside: gap, entries: seq<Entry>)
    requires Blanks(inside) && (forall e | e in entries :: EntrySpaced(e)) && (forall e | e in entries :: EntryCloses(e))
    requires Here(t, i, [LEFT_BRACE] + (inside + EntriesText(entries)))
    ensures Writes(t, i, [LEFT_BRACE] + ([] + EntriesText(BareEntries(entries))), i + 1 + |inside| + |EntriesText(entries)|)
    decreases entries, 4
  {
    hide Here, Writes, EntriesText, BareEntries, EntrySpaced, EntryCloses, Blanks;
    WritesOpening(t, i, LEFT_BRACE, inside, EntriesText(entries));
    var m := i + 1 + |inside|;
    WritesEntries(t, m, entries);
    WritesThen(t, i, [LEFT_BRACE], m, EntriesText(BareEntries(entries)), m + |EntriesText(entries)|);
    assert [LEFT_BRACE] + ([] + EntriesText(BareEntries(entries))) == [LEFT_BRACE] + EntriesText(BareEntries(entries));
  }

  /** A structural character and the white space after it. */
  lemma WritesOpening(t: Str, i: nat, c: cchar, g: gap, rest: Str)
    requires Copied(c) && Blanks(g) && Here(t, i, [c] + (g + rest))
    ensures Writes(t, i, [c], i + 1 + |g|) && Here(t, i + 1 + |g|, rest)
  {
    hide Here, Writes, MinifyFrom;
    HereSplit(t, i, [c], g + rest);
    HereSplit(t, i + 1, g, rest);
    WritesRun(t, i, [c]);
    WritesGap(t, i + 1, g);
    WritesThen(t, i, [c], i + 1, [], i + 1 + |g|);
    assert [c] + [] == [c];
  }

  /** A part of a text between two runs of white space. */
  lemma WritesPart(t: Str, i: nat, before: gap, s: Str, written: Str, after: gap, rest: Str)
    requires Blanks(before) && Blanks(after) && Here(t, i, before + (s + (after + rest)))
    requires Writes(t, i + |before|, written, i + |before| + |s|)
    ensures Writes(t, i, written, i + |before| + |s| + |after|)
    ensures Here(t, i + |before| + |s| + |after|, rest)
  {
    hide Here, Writes, MinifyFrom, Blanks;
    var k := i + |before|;
    HereSplit(t, i, before, s + (after + rest));
    HereSplit(t, k, s, after + rest);
    HereSplit(t, k + |s|, after, rest);
    WritesGap(t, i, before);
    WritesGap(t, k + |s|, after);
    WritesThen(t, i, [], k, written, k + |s|);
    WritesThen(t, i, [] + written, k + |s|, [], k + |s| + |after|);
    assert ([] + written) + [] == written;
  }

  lemma PartHere(t: Str, i: nat, before: gap, s: Str, rest: Str)
    requires Here(t, i, before + (s + rest))
    ensures Here(t, i + |before|, s)
  {
    HereSplit(t, i, before, s + rest);
    HereSplit(t, i + |before|, s, rest);
  }

  lemma {:induction false} WritesItems(t: Str, i: nat, items: seq<Item>)
    requires forall x | x in items :: ItemSpaced(x)
    requires forall x | x in items :: AllClosePlainly(x.value)
    requires Here(t, i, ItemsText(items))
    ensures Writes(t, i, ItemsText(BareItems(items)), i + |ItemsText(items)|)
    decreases items, 2
  {
    hide Here, Writes, MinifyFrom, JsonSpaced, AllClosePlainly, LayoutText, Bare, Blanks;
    if items == [] {
      WritesRun(t, i, [RIGHT_BRACKET]);
    } else {
      var x, rest := items[0], items[1..];
      assert x in items;
      PartHere(t, i, x.before, LayoutText(x.value), x.after + ItemsRest(rest));
      WritesLayout(t, i + |x.before|, x.value);
      var written := LayoutText(Bare(x.value));
      WritesPart(t, i, x.before, LayoutText(x.value), written, x.after, ItemsRest(rest));
      var m := i + |x.before| + |LayoutText(x.value)| + |x.after|;
      WritesItemsRest(t, m, rest);
      WritesThen(t, i, written, m, ItemsRest(BareItems(rest)), m + |ItemsRest(rest)|);
      BareItemsText(items);
    }
  }

  lemma BareItemsText(items: seq<Item>)
    requires items != []
    ensures ItemsText(BareItems(items)) == LayoutText(Bare(items[0].value)) + ItemsRest(BareItems(items[1..]))
  {
    hide LayoutText, Bare, ItemsRest;
    var r := BareItems(items);
    assert r[1..] == BareItems(items[1..]);
    DropEmpty(LayoutText(r[0].value), ItemsRest(r[1..]));
  }

  lemma DropEmpty(a: Str, b: Str)
    ensures [] + (a + ([] + b)) == a + b
  {
  }

  lemma {:induction false} WritesItemsRest(t: Str, i: nat, items: seq<Item>)
    requires forall x | x in items :: ItemSpaced(x)
    requires forall x | x in items :: AllClosePlainly(x.value)
    requires Here(t, i, ItemsRest(items))
    ensures Writes(t, i, ItemsRest(BareItems(items)), i + |ItemsRest(items)|)
    decreases items, 3
  {
    hide Here, Writes, MinifyFrom, JsonSpaced, AllClosePlainly, ItemsText, BareItems, ItemSpaced;
    if items == [] {
      WritesRun(t, i, [RIGHT_BRACKET]);
    } else {
      HereSplit(t, i, [COMMA], ItemsText(items));
      WritesRun(t, i, [COMMA]);
      WritesItems(t, i + 1, items);
      WritesThen(t, i, [COMMA], i + 1, ItemsText(BareItems(items)), i + 1 + |ItemsText(items)|);
    }
  }

  lemma {:induction false} WritesEntries(t: Str, i: nat, entries: seq<Entry>)
    requires forall e | e in entries :: EntrySpaced(e)
    requires forall e | e in entries :: EntryCloses(e)
    requires Here(t, i, EntriesText(entries))
    ensures Writes(t, i, EntriesText(BareEntries(entries)), i + |EntriesText(entries)|)
    decreases entries, 2
  {
    hide Here, Writes, MinifyFrom, EntrySpaced, EntryCloses, Bare, EntryText, EntriesRest;
    if entries == [] {
      WritesRun(t, i, [RIGHT_BRACE]);
    } else {
      var e, rest := entries[0], entries[1..];
      assert e in entries;
      WritesEntry(t, i, e, EntriesRest(rest));
      var m := i + |EntryText(e, EntriesRest(rest))| - |EntriesRest(rest)|;
      WritesEntriesRest(t, m, rest);
      WritesThen(t, i, BareEntryText(e, []), m, EntriesRest(BareEntries(rest)), m + |EntriesRest(rest)|);
      BareEntriesText(entries);
    }
  }

  function BareEntryText(e: Entry, rest: Str): Str {
    QuotedText(e.name) + ([COLON] + (LayoutText(Bare(e.value)) + rest))
  }

  lemma BareEntriesText(entries: seq<Entry>)
    requires entries != []
    ensures EntriesText(BareEntries(entries)) == BareEntryText(entries[0], []) + EntriesRest(BareEntries(entries[1..]))
  {
    hide LayoutText, Bare, EntriesRest, QuotedText;
    var r := BareEntries(entries);
    assert r[1..] == BareEntries(entries[1..]);
    DropEmpties(QuotedText(r[0].name), LayoutText(r[0].value), EntriesRest(r[1..]));
  }

  lemma DropEmpties(q: Str, v: Str, rest: Str)
    ensures [] + (q + ([] + ([COLON] + ([] + (v + ([] + rest)))))) == (q + ([COLON] + (v + []))) + rest
  {
    assert [] + rest == rest;
    assert [] + (v + rest) == v + rest;
    assert v + [] == v;
    assert [] + (q + ([COLON] + (v + rest))) == (q + ([COLON] + v)) + rest;
  }

  lemma {:induction false} WritesEntry(t: Str, i: nat, e: Entry, rest: Str)
    requires EntrySpaced(e) && EntryCloses(e)
    requires Here(t, i, EntryText(e, rest))
    ensures var m := i + |EntryText(e, rest)| - |rest|;
            && m >= 0 && Writes(t, i, BareEntryText(e, []), m) && Here(t, m, rest)
    decreases e
  {
    hide Here, Writes, MinifyFrom, JsonSpaced, AllClosePlainly, ClosesPlainly, Bare, Blanks, QuotedText, LayoutText;
    var q, v, tail := QuotedText(e.name), LayoutText(e.value), AfterName(e, rest);
    PartHere(t, i, e.before, q, e.beforeColon + tail);
    WritesLiteral(t, i + |e.before|, e.name);
    WritesPart(t, i, e.before, q, q, e.beforeColon, tail);
    var m := i + |e.before| + |q| + |e.beforeColon|;
    WritesOpening(t, m, COLON, e.afterColon, v + (e.after + rest));
    var p := m + 1 + |e.afterColon|;
    HereSplit(t, p, v, e.after + rest);
    WritesLayout(t, p, e.value);
    EmptyBlanks();
    assert [] + (v + (e.after + rest)) == v + (e.after + rest);
    WritesPart(t, p, [], v, LayoutText(Bare(e.value)), e.after, rest);
    WritesThen(t, i, q, m, [COLON], p);
    WritesThen(t, i, q + [COLON], p, LayoutText(Bare(e.value)), p + |v| + |e.after|);
    assert (q + [COLON]) + LayoutText(Bare(e.value)) == BareEntryText(e, []);
  }

  lemma EmptyBlanks()
    ensures Blanks([])
  {
  }

  lemma {:induction false} WritesEntriesRest(t: Str, i: nat, entries: seq<Entry>)
    requires forall e | e in entries :: EntrySpaced(e)
    requires forall e | e in entries :: EntryCloses(e)
    requires Here(t, i, EntriesRest(entries))
    ensures Writes(t, i, EntriesRest(BareEntries(entries)), i + |EntriesRest(entries)|)
    decreases entries, 3
  {
    hide Here, Writes, MinifyFrom, EntriesText, BareEntries, EntrySpaced, EntryCloses;
    if entries == [] {
      WritesRun(t, i, [RIGHT_BRACE]);
    } else {
      HereSplit(t, i, [COMMA], EntriesText(entries));
      WritesRun(t, i, [COMMA]);
      WritesEntries(t, i + 1, entries);
      WritesThen(t, i, [COMMA], i + 1, EntriesText(BareEntries(entries)), i + 1 + |EntriesText(entries)|);
    }
  }

  /** A JSON text in which no closing quote follows an escaped backslash loses exactly its white space. */
  lemma MinifyLayout(before: gap, l: Layout, after: gap)
    requires Blanks(before) && JsonSpaced(l) && Blanks(after) && AllClosePlainly(l)
    ensures Minify(before + (LayoutText(l) + after)) == LayoutText(Bare(l))
  {
    hide Here, Writes, MinifyFrom, JsonSpaced, AllClosePlainly, Bare, Blanks, LayoutText;
    var t := before + (LayoutText(l) + after);
    WholeText(t);
    assert t == before + (LayoutText(l) + (after + []));
    PartHere(t, 0, before, LayoutText(l), after + []);
    WritesLayout(t, |before|, l);
    WritesPart(t, 0, before, LayoutText(l), LayoutText(Bare(l)), after, []);
    AtEnd(t, LayoutText(Bare(l)));
  }

  lemma AtEnd(t: Str, s: Str)
    requires Writes(t, 0, s, |t|)
    ensures Minify(t) == s
  {
  }
}

/** Minifying texts with comments in them, which are given as concrete syntax. */
module MinifyComments {
  import opened Bytes
  import opened Pointers
  import opened Spellings
  import opened Parsing
  import opened Layouts
  import opened Reading
  import opened Minifying
  import opened Minified

  // ---- what may stand between tokens ----

  /** White space, a comment from two slashes to the end of the line, one between slash star and star slash, or a lone slash. */
  datatype Filler = White(g: gap) | Line(body: Str, closed: bool) | Block(body: Str, closed: bool) | Lone

  predicate IsFiller(f: Filler) {
    match f
    case White(g) => g != [] && forall k | 0 <= k < |g| :: g[k] in {32, 9, 13, 10}
    case Line(body, _) => forall k | 0 <= k < |body| :: body[k] != 10
    case Block(body, _) => forall k | 0 <= k < |body| - 1 :: !(body[k] == 42 && body[k + 1] == 47)
    case Lone => true
  }

  function FillerText(f: Filler): Str {
    match f
    case White(g) => g
    case Line(body, closed) => [47, 47] + (body + if closed then [10] else [])
    case Block(body, closed) => [47, 42] + (body + if closed then [42, 47] else [])
    case Lone => [47]
  }

  /** A comment that runs to the end of the text. */
  predicate Unclosed(f: Filler) {
    (f.Line? || f.Block?) && !f.closed
  }

  /** Fillers in a row; a slash begins no comment with what comes after it, and only the very last comment may be left open. */
  predicate IsFilling(fs: seq<Filler>, last: bool) {
    fs != [] ==>
      && IsFiller(fs[0])
      && (fs[0].Lone? && |fs| > 1 ==> fs[1].White?)
      && (Unclosed(fs[0]) ==> last && |fs| == 1)
      && IsFilling(fs[1..], last)
  }

  function FillingText(fs: seq<Filler>): Str {
    if fs == [] then [] else FillerText(fs[0]) + FillingText(fs[1..])
  }

  // ---- texts as tokens with fillings between them ----

  function Tokens(l: Layout): seq<Str>
    decreases l
  {
    match l
    case Items(_, items) => [[LEFT_BRACKET]] + ItemTokens(items)
    case Entries(_, entries) => [[LEFT_BRACE]] + EntryTokens(entries)
    case _ => [LayoutText(l)]
  }

  function ItemTokens(items: seq<Item>): seq<Str>
    decreases items
  {
    if items == [] then [[RIGHT_BRACKET]]
    else if |items| == 1 then Tokens(items[0].value) + [[RIGHT_BRACKET]]
    else Tokens(items[0].value) + ([[COMMA]] + ItemTokens(items[1..]))
  }

  function EntryTokens(entries: seq<Entry>): seq<Str>
    decreases entries
  {
    if entries == [] then [[RIGHT_BRACE]]
    else
      [QuotedText(entries[0].name), [COLON]] +
      (Tokens(entries[0].value) + if |entries| == 1 then [[RIGHT_BRACE]] else [[COMMA]] + EntryTokens(entries[1..]))
  }

  function Joined(tokens: seq<Str>): Str {
    if tokens == [] then [] else tokens[0] + Joined(tokens[1..])
  }

  /** The tokens with a filling before each and one at the end. */
  function Woven(fillings: seq<seq<Filler>>, tokens: seq<Str>): Str
    requires |fillings| == |tokens| + 1
  {
    if tokens == [] then FillingText(fillings[0])
    else FillingText(fillings[0]) + (tokens[0] + Woven(fillings[1..], tokens[1..]))
  }

  predicate Fillings(fillings: seq<seq<Filler>>) {
    forall k | 0 <= k < |fillings| :: IsFilling(fillings[k], k == |fillings| - 1)
  }

  // ---- fillings vanish ----

  lemma {:induction false} LineSkipped(t: Str, i: nat, body: Str, closed: bool)
    requires (forall k | 0 <= k < |body| :: body[k] != 10) && Here(t, i, body + if closed then [10] else [])
    requires !closed ==> i + |body| == |t|
    ensures LineEnd(t, i) == i + |body| + if closed then 1 else 0
    decreases |body|
  {
    if body == [] {
      if closed { FirstChar(t, i, [10]); }
    } else {
      var rest := body[1..] + if closed then [10] else [];
      assert body + (if closed then [10] else []) == [body[0]] + rest;
      FirstChar(t, i, [body[0]] + rest);
      HereSplit(t, i, [body[0]], rest);
      LineSkipped(t, i + 1, body[1..], closed);
    }
  }

  lemma {:induction false} BlockSkipped(t: Str, i: nat, body: Str, closed: bool)
    requires (forall k | 0 <= k < |body| - 1 :: !(body[k] == 42 && body[k + 1] == 47)) && Here(t, i, body + if closed then [42, 47] else [])
    requires !closed ==> i + |body| == |t|
    ensures BlockEnd(t, i) == i + |body| + if closed then 2 else 0
    decreases |body|
  {
    var end: Str := if closed then [42, 47] else [];
    HereAt(t, i, body + end);
    if body == [] {
      if closed { assert At(t, i + 0) == 42 && At(t, i + 1) == 47; }
    } else {
      assert At(t, i + 0) == body[0];
      assert body + end == [body[0]] + (body[1..] + end);
      HereSplit(t, i, [body[0]], body[1..] + end);
      if |body + end| > 1 { assert At(t, i + 1) == (body + end)[1]; }
      BlockSkipped(t, i + 1, body[1..], closed);
    }
  }

  /** What comes next in the text does not make a comment of a slash. */
  predicate NoComment(t: Str, i: nat) {
    At(t, i) != 47 && At(t, i) != 42
  }

  lemma FillerGone(t: Str, i: nat, f: Filler)
    requires IsFiller(f) && Here(t, i, FillerText(f)) && (Unclosed(f) ==> i + |FillerText(f)| == |t|)
    requires f.Lone? ==> NoComment(t, i + 1)
    ensures Writes(t, i, [], i + |FillerText(f)|)
  {
    hide Here, Writes, MinifyFrom;
    match f
    case White(g) => WhiteGone(t, i, g);
    case Line(body, closed) => LineGone(t, i, body, closed);
    case Block(body, closed) => BlockGone(t, i, body, closed);
    case Lone => LoneGone(t, i);
  }

  lemma WhiteGone(t: Str, i: nat, g: gap)
    requires IsFiller(White(g)) && Here(t, i, g)
    ensures Writes(t, i, [], i + |g|)
  {
    hide Here, Writes;
    assert Blanks(g);
    WritesGap(t, i, g);
  }

  lemma LineGone(t: Str, i: nat, body: Str, closed: bool)
    requires IsFiller(Line(body, closed)) && Here(t, i, FillerText(Line(body, closed)))
    requires !closed ==> i + |FillerText(Line(body, closed))| == |t|
    ensures Writes(t, i, [], i + |FillerText(Line(body, closed))|)
  {
    hide Here, LineEnd, BlockEnd, StringEnd;
    Slashes(t, i, 47, body + if closed then [10] else []);
    LineSkipped(t, i + 2, body, closed);
  }

  lemma BlockGone(t: Str, i: nat, body: Str, closed: bool)
    requires IsFiller(Block(body, closed)) && Here(t, i, FillerText(Block(body, closed)))
    requires !closed ==> i + |FillerText(Block(body, closed))| == |t|
    ensures Writes(t, i, [], i + |FillerText(Block(body, closed))|)
  {
    hide Here, LineEnd, BlockEnd, StringEnd;
    Slashes(t, i, 42, body + if closed then [42, 47] else []);
    BlockSkipped(t, i + 2, body, closed);
  }

  lemma LoneGone(t: Str, i: nat)
    requires Here(t, i, [47]) && NoComment(t, i + 1)
    ensures Writes(t, i, [], i + 1)
  {
    hide LineEnd, BlockEnd, StringEnd;
    FirstChar(t, i, [47]);
  }

  lemma Slashes(t: Str, i: nat, c: cchar, rest: Str)
    requires Here(t, i, [47, c] + rest)
    ensures i + 2 <= |t| && t[i] == 47 && At(t, i + 1) == c && Here(t, i + 2, rest)
  {
    HereSplit(t, i, [47, c], rest);
    HereAt(t, i, [47, c]);
    assert At(t, i + 0) == 47;
  }

  lemma {:induction false} FillingGone(t: Str, i: nat, fs: seq<Filler>, last: bool)
    requires IsFilling(fs, last) && Here(t, i, FillingText(fs)) && (last ==> i + |FillingText(fs)| == |t|)
    requires NoComment(t, i + |FillingText(fs)|)
    ensures Writes(t, i, [], i + |FillingText(fs)|)
    decreases |fs|
  {
    hide Here, Writes, IsFiller, FillerText, MinifyFrom;
    if fs == [] {
      WritesNothing(t, i);
    } else {
      var f, rest := FillerText(fs[0]), FillingText(fs[1..]);
      HereSplit(t, i, f, rest);
      if fs[0].Lone? { AfterLone(t, i, fs); }
      FillerGone(t, i, fs[0]);
      FillingGone(t, i + |f|, fs[1..], last);
      WritesThen(t, i, [], i + |f|, [], i + |f| + |rest|);
      NothingBefore([]);
    }
  }

  lemma NothingBefore(s: Str)
    ensures [] + s == s
  {
  }

  lemma WritesNothing(t: Str, i: nat)
    requires Here(t, i, [])
    ensures Writes(t, i, [], i)
  {
  }

  lemma AfterLone(t: Str, i: nat, fs: seq<Filler>)
    requires fs != [] && fs[0].Lone? && IsFiller(fs[0]) && (|fs| > 1 ==> fs[1].White? && IsFiller(fs[1]))
    requires Here(t, i + |FillerText(fs[0])|, FillingText(fs[1..])) && NoComment(t, i + |FillingText(fs)|)
    ensures |FillerText(fs[0])| == 1 && NoComment(t, i + 1)
  {
    if |fs| > 1 {
      var g := fs[1].g;
      assert fs[1..][0] == fs[1];
      assert FillingText(fs[1..]) == g + FillingText(fs[1..][1..]);
      FirstChar(t, i + 1, FillingText(fs[1..]));
      assert g[0] in {32, 9, 13, 10};
    } else {
      assert fs[1..] == [];
    }
  }

  // ---- tokens stay ----

  /** A token that is copied byte by byte, or a string literal whose quote closes plainly. */
  ghost predicate IsToken(s: Str) {
    || (s != [] && forall k | 0 <= k < |s| :: Copied(s[k]) && s[k] != 42)
    || exists q: seq<spelling> :: ClosesPlainly(q) && s == QuotedText(q)
  }

  ghost predicate AllTokens(tokens: seq<Str>) {
    forall k | 0 <= k < |tokens| :: IsToken(tokens[k])
  }

  lemma TokenStays(t: Str, i: nat, s: Str)
    requires IsToken(s) && Here(t, i, s)
    ensures Writes(t, i, s, i + |s|) && NoComment(t, i)
  {
    hide MinifyFrom, Here, Writes, WrittenAll, ClosesPlainly;
    FirstChar(t, i, s);
    if s != [] && forall k | 0 <= k < |s| :: Copied(s[k]) && s[k] != 42 {
      WritesRun(t, i, s);
    } else {
      var q: seq<spelling> :| ClosesPlainly(q) && s == QuotedText(q);
      WritesLiteral(t, i, q);
    }
  }

  lemma {:induction false} LayoutTokens(l: Layout)
    requires AllClosePlainly(l)
    ensures AllTokens(Tokens(l)) && Joined(Tokens(l)) == LayoutText(Bare(l))
    decreases l, 1
  {
    hide IsToken, LayoutText, QuotedText, ItemTokens, EntryTokens, BareItems, BareEntries, ItemsText, EntriesText, Joined, EntryCloses;
    match l
    case Items(inside, items) =>
      ItemTokensJoined(items);
      MarkToken(LEFT_BRACKET);
      BareText(l);
      JoinFront([LEFT_BRACKET], ItemTokens(items));
    case Entries(inside, entries) =>
      EntryTokensJoined(entries);
      MarkToken(LEFT_BRACE);
      BareText(l);
      JoinFront([LEFT_BRACE], EntryTokens(entries));
    case _ =>
      LeafToken(l);
      JoinFront(LayoutText(l), []);
      JoinNone();
      assert [LayoutText(l)] + [] == [LayoutText(l)] && LayoutText(l) + [] == LayoutText(l);
  }

  lemma JoinNone()
    ensures Joined([]) == []
  {
  }

  lemma BareText(l: Layout)
    ensures l.Items? ==> LayoutText(Bare(l)) == [LEFT_BRACKET] + ItemsText(BareItems(l.items))
    ensures l.Entries? ==> LayoutText(Bare(l)) == [LEFT_BRACE] + EntriesText(BareEntries(l.entries))
  {
    hide ItemsText, EntriesText;
    match l {
      case Items(_, items) => assert [] + ItemsText(BareItems(items)) == ItemsText(BareItems(items));
      case Entries(_, entries) => assert [] + EntriesText(BareEntries(entries)) == EntriesText(BareEntries(entries));
      case _ =>
    }
  }

  lemma MarkToken(c: cchar)
    requires c in {LEFT_BRACKET, RIGHT_BRACKET, LEFT_BRACE, RIGHT_BRACE, COMMA, COLON}
    ensures IsToken([c])
  {
  }

  lemma NameToken(q: seq<spelling>)
    requires ClosesPlainly(q)
    ensures IsToken(QuotedText(q))
  {
  }

  lemma LeafToken(l: Layout)
    requires !l.Items? && !l.Entries? && AllClosePlainly(l)
    ensures IsToken(LayoutText(l))
  {
    match l
    case Quoted(q) => NameToken(q);
    case Numeral(digits, _) => assert forall k | 0 <= k < |digits| :: NumberChar(digits[k]);
    case _ =>
  }

  lemma JoinFront(s: Str, tokens: seq<Str>)
    ensures Joined([s] + tokens) == s + Joined(tokens)
    ensures IsToken(s) && AllTokens(tokens) ==> AllTokens([s] + tokens)
  {
    hide IsToken;
    assert ([s] + tokens)[1..] == tokens;
  }

  lemma {:induction false} JoinTogether(a: seq<Str>, b: seq<Str>)
    ensures Joined(a + b) == Joined(a) + Joined(b)
    ensures AllTokens(a) && AllTokens(b) ==> AllTokens(a + b)
    decreases |a|
  {
    hide IsToken;
    if a == [] {
      assert a + b == b;
    } else {
      assert (a + b)[1..] == a[1..] + b;
      JoinTogether(a[1..], b);
    }
  }

  lemma {:induction false} ItemTokensJoined(items: seq<Item>)
    requires forall x | x in items :: AllClosePlainly(x.value)
    ensures AllTokens(ItemTokens(items)) && Joined(ItemTokens(items)) == ItemsText(BareItems(items))
    decreases items, 0
  {
    hide IsToken, AllTokens, LayoutText, Tokens, Joined, AllClosePlainly;
    MarkToken(RIGHT_BRACKET);
    MarkToken(COMMA);
    NoTokens();
    JoinFront([RIGHT_BRACKET], []);
    assert [[RIGHT_BRACKET]] + [] == [[RIGHT_BRACKET]] && [RIGHT_BRACKET] + [] == [RIGHT_BRACKET];
    if items != [] {
      assert items[0] in items;
      LayoutTokens(items[0].value);
      BareItemsText(items);
      var text, rest := LayoutText(Bare(items[0].value)), items[1..];
      if |items| == 1 {
        JoinTogether(Tokens(items[0].value), [[RIGHT_BRACKET]]);
      } else {
        ItemTokensJoined(rest);
        JoinFront([COMMA], ItemTokens(rest));
        JoinTogether(Tokens(items[0].value), [[COMMA]] + ItemTokens(rest));
      }
    }
  }

  lemma NoTokens()
    ensures Joined([]) == [] && AllTokens([])
  {
  }

  lemma {:induction false} EntryTokensJoined(entries: seq<Entry>)
    requires forall e | e in entries :: EntryCloses(e)
    ensures AllTokens(EntryTokens(entries)) && Joined(EntryTokens(entries)) == EntriesText(BareEntries(entries))
    decreases entries, 0
  {
    hide IsToken, AllTokens, LayoutText, Tokens, Joined, AllClosePlainly, ClosesPlainly, QuotedText;
    MarkToken(RIGHT_BRACE);
    NoTokens();
    JoinFront([RIGHT_BRACE], []);
    assert [[RIGHT_BRACE]] + [] == [[RIGHT_BRACE]] && [RIGHT_BRACE] + [] == [RIGHT_BRACE];
    if entries != [] {
      assert entries[0] in entries;
      var rest := entries[1..];
      var more: seq<Str> := if |entries| == 1 then [[RIGHT_BRACE]] else [[COMMA]] + EntryTokens(rest);
      if |entries| > 1 {
        EntryTokensJoined(rest);
        MarkToken(COMMA);
        JoinFront([COMMA], EntryTokens(rest));
      }
      EntryJoined(entries[0], more);
      BareEntriesText(entries);
      BareEntryAs(entries[0], EntriesRest(BareEntries(rest)));
    }
  }

  lemma BareEntryAs(e: Entry, rest: Str)
    ensures BareEntryText(e, []) + rest == QuotedText(e.name) + ([COLON] + (LayoutText(Bare(e.value)) + rest))
  {
  }

  lemma EntryJoined(e: Entry, more: seq<Str>)
    requires EntryCloses(e) && AllTokens(more)
    ensures var tokens := [QuotedText(e.name), [COLON]] + (Tokens(e.value) + more);
            AllTokens(tokens) && Joined(tokens) == QuotedText(e.name) + ([COLON] + (LayoutText(Bare(e.value)) + Joined(more)))
    decreases e, 2
  {
    hide IsToken, LayoutText, Tokens, Joined, AllClosePlainly, ClosesPlainly, QuotedText;
    MarkToken(COLON);
    NameToken(e.name);
    LayoutTokens(e.value);
    var rest := Tokens(e.value) + more;
    JoinTogether(Tokens(e.value), more);
    JoinFront([COLON], rest);
    JoinFront(QuotedText(e.name), [[COLON]] + rest);
    assert [QuotedText(e.name), [COLON]] + rest == [QuotedText(e.name)] + ([[COLON]] + rest);
  }

  // ---- the whole text ----

  lemma {:induction false} WovenGone(t: Str, i: nat, fillings: seq<seq<Filler>>, tokens: seq<Str>)
    requires |fillings| == |tokens| + 1 && Fillings(fillings) && AllTokens(tokens)
    requires Here(t, i, Woven(fillings, tokens)) && i + |Woven(fillings, tokens)| == |t|
    ensures MinifyFrom(t, i) == Joined(tokens)
    decreases |tokens|
  {
    hide Here, IsToken, IsFilling, FillingText, MinifyFrom;
    var f := FillingText(fillings[0]);
    if tokens == [] {
      AtEnd(t);
      FillingGone(t, i, fillings[0], true);
    } else {
      var rest := Woven(fillings[1..], tokens[1..]);
      HereSplit(t, i, f, tokens[0] + rest);
      HereSplit(t, i + |f|, tokens[0], rest);
      TokenStays(t, i + |f|, tokens[0]);
      FillingGone(t, i, fillings[0], false);
      assert Fillings(fillings[1..]) by {
        forall k | 0 <= k < |fillings| - 1
          ensures IsFilling(fillings[1..][k], k == |fillings| - 2)
        {
          assert IsFilling(fillings[k + 1], k + 1 == |fillings| - 1);
        }
      }
      WovenGone(t, i + |f| + |tokens[0]|, fillings[1..], tokens[1..]);
      NothingBefore(MinifyFrom(t, i + |f|));
    }
  }

  lemma AtEnd(t: Str)
    ensures NoComment(t, |t|) && MinifyFrom(t, |t|) == []
  {
  }

  /**
   * White space, comments and lone slashes, however they are put between the tokens of a text in which no
   * closing quote follows an escaped backslash: minifying leaves exactly the tokens.
   */
  lemma MinifyCommented(l: Layout, fillings: seq<seq<Filler>>)
    requires AllClosePlainly(l) && |fillings| == |Tokens(l)| + 1 && Fillings(fillings)
    ensures Minify(Woven(fillings, Tokens(l))) == Joined(Tokens(l)) == LayoutText(Bare(l))
  {
    hide MinifyFrom, Woven, Fillings, Joined, Tokens;
    LayoutTokens(l);
    WholeText(Woven(fillings, Tokens(l)));
    WovenGone(Woven(fillings, Tokens(l)), 0, fillings, Tokens(l));
  }
}

/**
 * The white space of a print, read off the bytes of the text: the formatted text is the unformatted one with
 * bytes 10, 9 and 32 put in at places that the neighbouring bytes and the open brackets determine.
 */
module PrintedSpace {
  import opened Bytes
  import opened Json
  import opened Pointers
  import opened Escapes
  import opened Spellings
  import opened Parsing
  import opened Reading
  import opened Rendering

  // ---- scanning a text ----

  /** The place after a string literal, from anywhere inside it. */
  function PastLiteral(t: Str, i: nat): (j: nat)
    requires i <= |t|
    ensures i <= j <= |t|
    decreases |t| - i
  {
    if i == |t| then i
    else if t[i] == QUOTE then i + 1
    else if t[i] == BACKSLASH && i + 1 < |t| then PastLiteral(t, i + 2)
    else PastLiteral(t, i + 1)
  }

  /** From `i` on, no byte outside string literals is white space. */
  predicate Tight(t: Str, i: nat)
    requires i <= |t|
    decreases |t| - i
  {
    i == |t| || (t[i] > 32 && Tight(t, if t[i] == QUOTE then PastLiteral(t, i + 1) else i + 1))
  }

  /** A new line, and a tab for every open bracket. */
  function NewLine(open: nat): Str {
    [10] + seq(open, _ => 9)
  }

  /** The brackets that are open behind a byte. */
  function Opened(open: Str, c: cchar): Str {
    if c == LEFT_BRACE || c == LEFT_BRACKET then open + [c]
    else if (c == RIGHT_BRACE || c == RIGHT_BRACKET) && open != [] then open[..|open| - 1]
    else open
  }

  /**
   * What formatting writes for the byte at `i`, with these brackets open before it: a new line behind an
   * opening brace, behind a comma between members and before a closing brace, with a tab for every bracket
   * that is open there; a space behind a comma between elements; a tab behind a colon.
   */
  function Spaced(t: Str, i: nat, open: Str): Str
    requires i < |t|
  {
    var c := t[i];
    if c == LEFT_BRACE then [c] + NewLine(if At(t, i + 1) == RIGHT_BRACE then |open| else |open| + 1)
    else if c == COMMA && open != [] && open[|open| - 1] == LEFT_BRACE then [c] + NewLine(|open|)
    else if c == COMMA then [c] + [32]
    else if c == COLON then [c] + [9]
    else if c == RIGHT_BRACE && open != [] && (i == 0 || t[i - 1] != LEFT_BRACE) then NewLine(|open| - 1) + [c]
    else [c]
  }

  /** The formatted text, from an unformatted one: string literals are left as they are. */
  function Indented(t: Str, i: nat, open: Str): Str
    requires i <= |t|
    decreases |t| - i
  {
    if i == |t| then []
    else if t[i] == QUOTE then t[i..PastLiteral(t, i + 1)] + Indented(t, PastLiteral(t, i + 1), open)
    else Spaced(t, i, open) + Indented(t, i + 1, Opened(open, t[i]))
  }

  // ---- stretches of an unformatted text ----

  /** A stretch without white space outside literals, which formatting turns into `s`. */
  ghost predicate Becomes(t: Str, i: nat, n: nat, open: Str, s: Str) {
    && i + n <= |t| && Indented(t, i, open) == s + Indented(t, i + n, open)
    && (Tight(t, i + n) ==> Tight(t, i))
  }

  lemma BecomesThen(t: Str, i: nat, m: nat, n: nat, open: Str, a: Str, b: Str)
    requires Becomes(t, i, m, open, a) && Becomes(t, i + m, n, open, b)
    ensures Becomes(t, i, m + n, open, a + b)
  {
    hide Indented, Tight;
    assert a + (b + Indented(t, i + m + n, open)) == (a + b) + Indented(t, i + m + n, open);
  }

  /** A byte that formatting leaves alone. */
  predicate Inert(c: byte) {
    c > 32 && c != QUOTE && c != LEFT_BRACE && c != RIGHT_BRACE && c != LEFT_BRACKET && c != RIGHT_BRACKET && c != COMMA && c != COLON
  }

  lemma {:induction false} RunStays(t: Str, i: nat, open: Str, s: Str)
    requires Here(t, i, s) && forall k | 0 <= k < |s| :: Inert(s[k])
    ensures Becomes(t, i, |s|, open, s)
    decreases |s|
  {
    if s != [] {
      FirstChar(t, i, s);
      assert s == [s[0]] + s[1..];
      HereSplit(t, i, [s[0]], s[1..]);
      assert Becomes(t, i, 1, open, [s[0]]);
      RunStays(t, i + 1, open, s[1..]);
      BecomesThen(t, i, 1, |s| - 1, open, [s[0]], s[1..]);
    }
  }

  lemma {:induction false} PastEscaped(t: Str, i: nat, s: Str)
    requires Here(t, i, EscapeText(s) + [QUOTE])
    ensures i + |EscapeText(s)| < |t| && PastLiteral(t, i) == i + |EscapeText(s)| + 1
    decreases |s|
  {
    hide EscapeChar, Here, HexDigit;
    if s == [] {
      assert EscapeText(s) + [QUOTE] == [QUOTE];
      FirstChar(t, i, [QUOTE]);
    } else {
      var e, rest := EscapeChar(s[0]), EscapeText(s[1..]) + [QUOTE];
      assert EscapeText(s) + [QUOTE] == e + rest;
      HereSplit(t, i, e, rest);
      PastEscaped(t, i + |e|, s[1..]);
      PastChar(t, i, s[0]);
    }
  }

  lemma PastChar(t: Str, i: nat, c: cchar)
    requires Here(t, i, EscapeChar(c)) && i + |EscapeChar(c)| < |t|
    ensures PastLiteral(t, i) == PastLiteral(t, i + |EscapeChar(c)|)
  {
    var e := EscapeChar(c);
    HereAt(t, i, e);
    assert At(t, i + 0) == e[0];
    if |e| == 6 {
      assert At(t, i + 1) == e[1] && At(t, i + 2) == e[2] && At(t, i + 3) == e[3] && At(t, i + 4) == e[4] && At(t, i + 5) == e[5];
      assert PastLiteral(t, i + 2) == PastLiteral(t, i + 3) == PastLiteral(t, i + 4);
      assert PastLiteral(t, i + 4) == PastLiteral(t, i + 5) == PastLiteral(t, i + 6);
    }
  }

  lemma HereIs(t: Str, i: nat, s: Str)
    requires Here(t, i, s)
    ensures i + |s| <= |t| && t[i..i + |s|] == s
  {
  }

  lemma LiteralStays(t: Str, i: nat, open: Str, s: Str)
    requires Here(t, i, Literal(s))
    ensures Becomes(t, i, |Literal(s)|, open, Literal(s))
  {
    hide EscapeText, PastLiteral, Here, Spaced, Opened;
    assert Literal(s) == [QUOTE] + (EscapeText(s) + [QUOTE]);
    FirstChar(t, i, Literal(s));
    HereSplit(t, i, [QUOTE], EscapeText(s) + [QUOTE]);
    PastEscaped(t, i + 1, s);
    assert t[i..i + |Literal(s)|] == Literal(s) by { HereIs(t, i, Literal(s)); }
  }

  // ---- prints ----

  lemma WordsInert()
    ensures forall k | 0 <= k < 4 :: Inert(NULL_WORD[k]) && Inert(TRUE_WORD[k])
    ensures forall k | 0 <= k < 5 :: Inert(FALSE_WORD[k])
  {
  }

  lemma NumberInert(n: int32)
    ensures forall k | 0 <= k < |PrintInt(n)| :: Inert(PrintInt(n)[k])
  {
    var m: nat := if n < 0 then -(n as int) else n;
    DecimalIsDigits(m);
    assert forall k | 0 <= k < |Decimal(m)| :: IsDigit(Decimal(m)[k]);
  }

  /** No print ends in an opening brace, and none is empty. */
  lemma RenderEnds(v: Json, depth: nat)
    ensures var s := Render(v, false, depth); s != [] && s[|s| - 1] != LEFT_BRACE
  {
    match v
    case Number(n) =>
      NumberInert(n);
      assert PrintInt(n) != [];
    case _ =>
  }

  /** Behind an opening bracket and before its closing one, a stretch with one more bracket open. */
  lemma Within(t: Str, i: nat, n: nat, open: Str, c: cchar, d: cchar, a: Str, s: Str, b: Str)
    requires i + n + 2 <= |t| && t[i] == c && t[i + 1 + n] == d
    requires (c == LEFT_BRACKET && d == RIGHT_BRACKET) || (c == LEFT_BRACE && d == RIGHT_BRACE)
    requires Spaced(t, i, open) == a && Becomes(t, i + 1, n, open + [c], s) && Spaced(t, i + 1 + n, open + [c]) == b
    ensures Becomes(t, i, n + 2, open, a + (s + b))
  {
    hide Spaced;
    assert (open + [c])[..|open|] == open;
    assert Opened(open, c) == open + [c] && Opened(open + [c], d) == open;
    assert Indented(t, i + 1 + n, open + [c]) == b + Indented(t, i + n + 2, open);
    assert a + (s + (b + Indented(t, i + n + 2, open))) == (a + (s + b)) + Indented(t, i + n + 2, open);
  }

  /** The formatted print of a value is its unformatted print with that white space. */
  lemma {:induction false} RenderSpaced(t: Str, i: nat, v: Json, open: Str)
    requires Here(t, i, Render(v, false, |open|))
    ensures Becomes(t, i, |Render(v, false, |open|)|, open, Render(v, true, |open|))
    decreases v, 2
  {
    hide Here, Indented, Tight, Becomes, Literal, Inert;
    match v
    case String(s) => LiteralStays(t, i, open, s);
    case Array(items) => ArraySpaced(t, i, items, open);
    case Object(members) => ObjectSpaced(t, i, members, open);
    case Number(n) =>
      NumberInert(n);
      RunStays(t, i, open, PrintInt(n));
    case _ =>
      WordsInert();
      RunStays(t, i, open, Render(v, false, |open|));
  }

  lemma {:induction false} ArraySpaced(t: Str, i: nat, items: seq<Json>, open: Str)
    requires Here(t, i, Render(Array(items), false, |open|))
    ensures Becomes(t, i, |Render(Array(items), false, |open|)|, open, Render(Array(items), true, |open|))
    decreases items, 1
  {
    hide Here, Indented, Tight, Becomes, RenderItems;
    var open' := open + [LEFT_BRACKET];
    var s := RenderItems(items, false, |open'|);
    FirstChar(t, i, [LEFT_BRACKET] + (s + [RIGHT_BRACKET]));
    HereSplit(t, i, [LEFT_BRACKET], s + [RIGHT_BRACKET]);
    HereSplit(t, i + 1, s, [RIGHT_BRACKET]);
    FirstChar(t, i + 1 + |s|, [RIGHT_BRACKET]);
    ItemsSpaced(t, i + 1, items, open');
    Within(t, i, |s|, open, LEFT_BRACKET, RIGHT_BRACKET, [LEFT_BRACKET], RenderItems(items, true, |open'|), [RIGHT_BRACKET]);
  }

  lemma {:induction false} ItemsSpaced(t: Str, i: nat, items: seq<Json>, open: Str)
    requires Here(t, i, RenderItems(items, false, |open|)) && open != [] && open[|open| - 1] == LEFT_BRACKET
    ensures Becomes(t, i, |RenderItems(items, false, |open|)|, open, RenderItems(items, true, |open|))
    decreases items, 0
  {
    hide Here, Indented, Tight, Becomes, Render, RenderItems;
    var depth := |open|;
    if items == [] {
      NoItemsRendered(false, depth);
      NoItemsRendered(true, depth);
      RunStays(t, i, open, []);
    } else {
      var x, rest := Render(items[0], false, depth), RenderItems(items[1..], false, depth);
      var x', rest' := Render(items[0], true, depth), RenderItems(items[1..], true, depth);
      RenderNext(items, false, depth);
      RenderNext(items, true, depth);
      if |items| == 1 {
        assert x + [] == x && x' + [] == x';
        RenderSpaced(t, i, items[0], open);
      } else {
        assert RenderItems(items, false, depth) == x + ([COMMA] + rest);
        assert RenderItems(items, true, depth) == x' + (([COMMA] + [32]) + rest');
        HereSplit(t, i, x, [COMMA] + rest);
        HereSplit(t, i + |x|, [COMMA], rest);
        RenderSpaced(t, i, items[0], open);
        CommaSpaced(t, i + |x|, open);
        ItemsSpaced(t, i + |x| + 1, items[1..], open);
        BecomesThen(t, i + |x|, 1, |rest|, open, [COMMA] + [32], rest');
        BecomesThen(t, i, |x|, 1 + |rest|, open, x', ([COMMA] + [32]) + rest');
      }
    }
  }

  lemma CommaSpaced(t: Str, i: nat, open: Str)
    requires Here(t, i, [COMMA]) && open != []
    ensures Becomes(t, i, 1, open, if open[|open| - 1] == LEFT_BRACE then [COMMA] + NewLine(|open|) else [COMMA] + [32])
  {
    FirstChar(t, i, [COMMA]);
  }

  lemma ColonSpaced(t: Str, i: nat, open: Str)
    requires Here(t, i, [COLON])
    ensures Becomes(t, i, 1, open, [COLON] + [9])
  {
    FirstChar(t, i, [COLON]);
  }

  lemma NewLineTabs(open: nat)
    ensures NewLine(open) == [NEWLINE] + Tabs(open)
  {
  }

  lemma {:induction false} ObjectSpaced(t: Str, i: nat, members: seq<Member<Json>>, open: Str)
    requires Here(t, i, Render(Object(members), false, |open|))
    ensures Becomes(t, i, |Render(Object(members), false, |open|)|, open, Render(Object(members), true, |open|))
    decreases members, 2
  {
    hide Here, Indented, Tight, Becomes, RenderNamed, NewLine, Tabs;
    var depth, open' := |open|, open + [LEFT_BRACE];
    NewLineTabs(depth);
    if members == [] {
      EmptyObject(t, i, open);
    } else {
      var s := RenderNamed(members, false, depth + 1);
      assert Render(Object(members), false, depth) == [LEFT_BRACE] + (s + [RIGHT_BRACE]);
      HereSplit(t, i, [LEFT_BRACE], s + [RIGHT_BRACE]);
      HereSplit(t, i + 1, s, [RIGHT_BRACE]);
      NamedEnds(t, i + 1, members, depth + 1);
      NamedSpaced(t, i + 1, members, open');
      BracesSpaced(t, i, |s|, open);
      Within(t, i, |s|, open, LEFT_BRACE, RIGHT_BRACE, [LEFT_BRACE] + NewLine(depth + 1), Line(members, depth + 1), NewLine(depth) + [RIGHT_BRACE]);
      ObjectLines(members, depth);
    }
  }

  lemma BracesSpaced(t: Str, i: nat, n: nat, open: Str)
    requires n > 0 && Here(t, i, [LEFT_BRACE]) && Here(t, i + 1 + n, [RIGHT_BRACE])
    requires t[i + 1] == QUOTE && t[i + n] != LEFT_BRACE
    ensures i + n + 2 <= |t| && t[i] == LEFT_BRACE && t[i + 1 + n] == RIGHT_BRACE
    ensures Spaced(t, i, open) == [LEFT_BRACE] + NewLine(|open| + 1)
    ensures Spaced(t, i + 1 + n, open + [LEFT_BRACE]) == NewLine(|open|) + [RIGHT_BRACE]
  {
    hide NewLine;
    FirstChar(t, i, [LEFT_BRACE]);
    FirstChar(t, i + 1 + n, [RIGHT_BRACE]);
  }

  lemma ObjectLines(members: seq<Member<Json>>, depth: nat)
    requires members != []
    ensures Render(Object(members), true, depth) ==
            ([LEFT_BRACE] + NewLine(depth + 1)) + (Line(members, depth + 1) + (NewLine(depth) + [RIGHT_BRACE]))
  {
    hide RenderNamed, Line, NewLine, Tabs;
    NewLineTabs(depth);
    NewLineTabs(depth + 1);
    LineEnds(members, depth + 1);
    LinesGlued(Tabs(depth + 1), Line(members, depth + 1), Tabs(depth));
  }

  lemma LinesGlued(tabs: Str, line: Str, last: Str)
    ensures [LEFT_BRACE, NEWLINE] + ((tabs + (line + [NEWLINE])) + (last + [RIGHT_BRACE])) ==
            ([LEFT_BRACE] + ([NEWLINE] + tabs)) + (line + (([NEWLINE] + last) + [RIGHT_BRACE]))
  {
  }

  lemma EmptyObject(t: Str, i: nat, open: Str)
    requires Here(t, i, Render(Object([]), false, |open|))
    ensures Becomes(t, i, |Render(Object([]), false, |open|)|, open, Render(Object([]), true, |open|))
  {
    hide Indented, Tight, Becomes;
    var depth, open' := |open|, open + [LEFT_BRACE];
    assert Render(Object([]), false, depth) == [LEFT_BRACE] + [RIGHT_BRACE];
    HereSplit(t, i, [LEFT_BRACE], [RIGHT_BRACE]);
    FirstChar(t, i, [LEFT_BRACE]);
    FirstChar(t, i + 1, [RIGHT_BRACE]);
    RunStays(t, i + 1, open', []);
    NewLineTabs(depth);
    Within(t, i, 0, open, LEFT_BRACE, RIGHT_BRACE, [LEFT_BRACE] + NewLine(depth), [], [RIGHT_BRACE]);
    assert Render(Object([]), true, depth) == ([LEFT_BRACE] + NewLine(depth)) + ([] + [RIGHT_BRACE]);
  }

  /** The members of an object begin with a quote, and do not end in an opening brace. */
  lemma {:induction false} NamedEnds(t: Str, i: nat, members: seq<Member<Json>>, depth: nat)
    requires members != [] && Here(t, i, RenderNamed(members, false, depth))
    ensures var s := RenderNamed(members, false, depth);
            s != [] && i + |s| <= |t| && t[i] == QUOTE && t[i + |s| - 1] != LEFT_BRACE
  {
    var s := RenderNamed(members, false, depth);
    NamedLast(members, depth);
    assert t[i..i + |s|] == s;
    assert t[i] == s[0] && t[i + |s| - 1] == s[|s| - 1];
  }

  lemma {:induction false} NamedLast(members: seq<Member<Json>>, depth: nat)
    requires members != []
    ensures var s := RenderNamed(members, false, depth); s != [] && s[0] == QUOTE && s[|s| - 1] != LEFT_BRACE
    decreases |members|
  {
    hide Render;
    var m, s := members[0], RenderNamed(members, false, depth);
    RenderEnds(m.value, depth);
    assert Literal(m.key)[0] == QUOTE;
    if |members| == 1 {
      assert s == (Literal(m.key) + [COLON]) + Render(m.value, false, depth);
    } else {
      NamedLast(members[1..], depth);
      NamedBare(members, depth);
      Reassociate(Literal(m.key), [COLON], Render(m.value, false, depth), [COMMA], RenderNamed(members[1..], false, depth));
    }
  }

  lemma Reassociate(a: Str, b: Str, c: Str, d: Str, e: Str)
    ensures a + (b + (c + (d + e))) == (a + (b + (c + d))) + e
    ensures a + (b + (c + d)) == (a + (b + c)) + d
    ensures d + [] == d
  {
  }

  lemma Unline(a: Str, b: Str, c: Str, d: Str, tabs: Str, line: Str)
    ensures a + (b + (c + ((d + [NEWLINE]) + (tabs + (line + [NEWLINE]))))) == (a + (b + (c + ((d + ([NEWLINE] + tabs)) + line)))) + [NEWLINE]
  {
  }

  lemma NamedWith(members: seq<Member<Json>>, format: bool, depth: nat)
    requires members != [] && format
    ensures var m := members[0];
            && (|members| == 1 ==>
                  RenderNamed(members, format, depth) ==
                  Literal(m.key) + (([COLON] + [9]) + (Render(m.value, format, depth) + ([NEWLINE] + []))))
            && (|members| > 1 ==>
                  RenderNamed(members, format, depth) ==
                  Literal(m.key) + (([COLON] + [9]) + (Render(m.value, format, depth) + (([COMMA] + [NEWLINE]) + (Tabs(depth) + RenderNamed(members[1..], format, depth))))))
  {
    hide Render, Literal, Tabs;
    assert AfterKey(true) == [COLON] + [9] && AfterMember(true, true) == [NEWLINE] && AfterMember(false, true) == [COMMA] + [NEWLINE];
    assert RenderMembers([], true, depth) == [];
  }

  /** The members as formatted, up to the last new line. */
  function Line(members: seq<Member<Json>>, depth: nat): Str
    requires members != []
  {
    var s := RenderNamed(members, true, depth);
    s[..|s| - 1]
  }

  lemma {:induction false} LineEnds(members: seq<Member<Json>>, depth: nat)
    requires members != []
    ensures RenderNamed(members, true, depth) == Line(members, depth) + [NEWLINE]
    ensures var m := members[0];
            Line(members, depth) ==
            Literal(m.key) + (([COLON] + [9]) +
              if |members| == 1 then Render(m.value, true, depth)
              else Render(m.value, true, depth) + (([COMMA] + NewLine(depth)) + Line(members[1..], depth)))
    decreases |members|
  {
    hide Render, Literal, NewLine, Tabs;
    var m, s := members[0], RenderNamed(members, true, depth);
    if |members| == 1 {
      NamedWith(members, true, depth);
      Reassociate(Literal(m.key), [COLON] + [9], Render(m.value, true, depth), [NEWLINE], []);
      assert (Literal(m.key) + (([COLON] + [9]) + Render(m.value, true, depth))) + [NEWLINE] == s;
    } else {
      LineEnds(members[1..], depth);
      NewLineTabs(depth);
      NamedWith(members, true, depth);
      Unline(Literal(m.key), [COLON] + [9], Render(m.value, true, depth), [COMMA], Tabs(depth), Line(members[1..], depth));
      assert (Literal(m.key) + (([COLON] + [9]) + (Render(m.value, true, depth) + (([COMMA] + NewLine(depth)) + Line(members[1..], depth))))) + [NEWLINE] == s;
    }
  }

  lemma NamedBare(members: seq<Member<Json>>, depth: nat)
    requires members != []
    ensures var m := members[0];
            RenderNamed(members, false, depth) ==
            Literal(m.key) + ([COLON] +
              if |members| == 1 then Render(m.value, false, depth)
              else Render(m.value, false, depth) + ([COMMA] + RenderNamed(members[1..], false, depth)))
  {
    hide Render, Literal;
  }

  lemma {:induction false} NamedSpaced(t: Str, i: nat, members: seq<Member<Json>>, open: Str)
    requires members != [] && open != [] && open[|open| - 1] == LEFT_BRACE && Here(t, i, RenderNamed(members, false, |open|))
    ensures Becomes(t, i, |RenderNamed(members, false, |open|)|, open, Line(members, |open|))
    decreases members, 1
  {
    hide Here, Indented, Tight, Becomes, Render, RenderNamed, NewLine, Literal, Line;
    var depth, m := |open|, members[0];
    var key, x, x' := Literal(m.key), Render(m.value, false, depth), Render(m.value, true, depth);
    var more := if |members| == 1 then x else x + ([COMMA] + RenderNamed(members[1..], false, depth));
    var more' := if |members| == 1 then x' else x' + (([COMMA] + NewLine(depth)) + Line(members[1..], depth));
    NamedBare(members, depth);
    LineEnds(members, depth);
    HereSplit(t, i, key, [COLON] + more);
    HereSplit(t, i + |key|, [COLON], more);
    LiteralStays(t, i, open, m.key);
    ColonSpaced(t, i + |key|, open);
    var j := i + |key| + 1;
    if |members| == 1 {
      RenderSpaced(t, j, m.value, open);
    } else {
      HereSplit(t, j, x, [COMMA] + RenderNamed(members[1..], false, depth));
      HereSplit(t, j + |x|, [COMMA], RenderNamed(members[1..], false, depth));
      RenderSpaced(t, j, m.value, open);
      CommaSpaced(t, j + |x|, open);
      NamedSpaced(t, j + |x| + 1, members[1..], open);
      var n := |RenderNamed(members[1..], false, depth)|;
      BecomesThen(t, j + |x|, 1, n, open, [COMMA] + NewLine(depth), Line(members[1..], depth));
      BecomesThen(t, j, |x|, 1 + n, open, x', ([COMMA] + NewLine(depth)) + Line(members[1..], depth));
    }
    BecomesThen(t, i + |key|, 1, |more|, open, [COLON] + [9], more');
    BecomesThen(t, i, |key|, 1 + |more|, open, key, ([COLON] + [9]) + more');
  }

  /**
   * The formatted print is the unformatted print with new lines, tabs and spaces put in as `Spaced` says, and the
   * unformatted print has no white space but inside its literals.
   */
  lemma FormattedSpace(v: Json)
    ensures Render(v, true, 0) == Indented(Render(v, false, 0), 0, [])
    ensures Tight(Render(v, false, 0), 0)
  {
    hide Render;
    var t := Render(v, false, 0);
    WholeText(t);
    RenderSpaced(t, 0, v, []);
    assert Indented(t, |t|, []) == [];
    assert Render(v, true, 0) + [] == Render(v, true, 0);
  }
}

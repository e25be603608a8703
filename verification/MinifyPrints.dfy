/** Exactly when minifying the formatted print of a tree gives its unformatted print. */
module MinifyPrints {
  import opened Bytes
  import opened Json
  import opened Escapes
  import opened Spellings
  import opened Parsing
  import opened Layouts
  import opened Reading
  import opened Rendering
  import opened Minifying
  import opened Minified
  import opened MinifyExact

  /** One string ends in a backslash, and nothing but closing brackets comes after it. */
  predicate OnlyLast(v: Json) {
    match v
    case String(s) => EndsInBackslash(s)
    case Array(items) => OnlyLastItem(items)
    case _ => false
  }

  predicate OnlyLastItem(items: seq<Json>) {
    items != [] && if |items| == 1 then OnlyLast(items[0]) else NoFinalBackslash(items[0]) && OnlyLastItem(items[1..])
  }

  // ---- parts of prints ----

  /** A value whose strings close plainly is minified to its unformatted print. */
  lemma WritesRendered(t: Str, i: nat, v: Json, depth: nat, rest: Str)
    requires NoFinalBackslash(v) && Here(t, i, Render(v, true, depth) + rest)
    ensures var j := i + |Render(v, true, depth)|; Writes(t, i, Render(v, false, depth), j) && Here(t, j, rest)
  {
    hide Here, Writes, LayoutText, Bare, Laid, Render, JsonSpaced, AllClosePlainly, NoFinalBackslash;
    HereSplit(t, i, Render(v, true, depth), rest);
    LaidBare(v, true, depth);
    LaidAsRendered(v, true, depth);
    LaidAsRendered(v, false, depth);
    WritesLayout(t, i, Laid(v, true, depth));
  }

  lemma RenderStart(v: Json, depth: nat)
    ensures Render(v, false, depth) != [] && !Blank(Render(v, false, depth)[0])
  {
    match v
    case Number(n) => DecimalIsDigits(if n < 0 then -(n as int) else n);
    case _ =>
  }

  lemma LiteralText(s: Str)
    ensures QuotedText(SpellText(s)) == Literal(s)
  {
  }

  lemma StraysAfter(c: cchar, d: cchar, rest: Str, b: Str)
    requires Blank(d) && c != QUOTE && c != BACKSLASH && (b == [] || !Blank(b[0]))
    ensures Strays([c] + ([d] + rest), [c] + b)
  {
    var f, g := [c] + ([d] + rest), [c] + b;
    assert f[..1] == [c] == g[..1];
    assert BlankOnly(f, g, 1);
  }

  lemma StraysNow(d: cchar, rest: Str, b: Str)
    requires Blank(d) && (b == [] || !Blank(b[0]))
    ensures Strays([d] + rest, b)
  {
    var f := [d] + rest;
    assert f[..0] == [] == b[..0];
    assert BlankOnly(f, b, 0);
  }

  lemma StraysBehind(c: cchar, f: Str, b: Str)
    requires Strays(f, b) && c != QUOTE && c != BACKSLASH
    ensures Strays([c] + f, [c] + b)
  {
    var k: nat :| k < |f| && k <= |b| && f[..k] == b[..k] && PlainText(f[..k]) && BlankOnly(f, b, k);
    var n: nat := k + 1;
    assert ([c] + f)[..n] == [c] + f[..k] && ([c] + b)[..n] == [c] + b[..k];
    assert BlankOnly([c] + f, [c] + b, n);
  }

  lemma Apart(t: Str, i: nat, a: Str, j: nat, b: Str, x: Str)
    requires Writes(t, i, a, j) && Departs(MinifyFrom(t, j), b) && x == a + b
    ensures Departs(MinifyFrom(t, i), x)
  {
    hide Writes, Departs, MinifyFrom;
    DepartsPast(t, i, a, j, b);
  }

  // ---- where the prints differ ----

  /** With the first missed quote, white space is copied that the unformatted print does not have. */
  lemma {:induction false} DepartsRendered(t: Str, i: nat, v: Json, depth: nat, f: Str, b: Str)
    requires !NoFinalBackslash(v) && Here(t, i, Render(v, true, depth) + f)
    requires OnlyLast(v) ==> Strays(f, b)
    ensures Departs(MinifyFrom(t, i), Render(v, false, depth) + b)
    decreases v, 1
  {
    hide Here, Departs, MinifyFrom, Strays, EndsInBackslash;
    match v
    case String(s) =>
      PrintedCloses(s);
      LiteralText(s);
      DepartsLiteral(t, i, SpellText(s), f, b);
    case Array(items) => DepartsArray(t, i, items, depth, f, b);
    case Object(members) => DepartsObject(t, i, members, depth, f, b);
    case _ =>
  }

  lemma {:induction false} DepartsArray(t: Str, i: nat, items: seq<Json>, depth: nat, f: Str, b: Str)
    requires !NoFinalBackslash(Array(items)) && Here(t, i, Render(Array(items), true, depth) + f)
    requires OnlyLastItem(items) ==> Strays(f, b)
    ensures Departs(MinifyFrom(t, i), Render(Array(items), false, depth) + b)
    decreases items, 1
  {
    hide Here, Writes, Departs, MinifyFrom, Strays, OnlyLastItem, RenderItems;
    var f', b', s, s' := [RIGHT_BRACKET] + f, [RIGHT_BRACKET] + b, RenderItems(items, true, depth + 1), RenderItems(items, false, depth + 1);
    assert Render(Array(items), true, depth) + f == [LEFT_BRACKET] + ([] + (s + f'));
    WritesOpening(t, i, LEFT_BRACKET, [], s + f');
    if OnlyLastItem(items) { StraysBehind(RIGHT_BRACKET, f, b); }
    DepartsList(t, i + 1, items, depth + 1, f', b');
    assert Render(Array(items), false, depth) + b == [LEFT_BRACKET] + (s' + b');
    Apart(t, i, [LEFT_BRACKET], i + 1, s' + b', Render(Array(items), false, depth) + b);
  }

  /** What follows the first of some elements, in either print. */
  function AfterItem(items: seq<Json>, format: bool, depth: nat): Str
    requires items != []
  {
    if |items| == 1 then [] else Separator(format) + RenderItems(items[1..], format, depth)
  }

  lemma {:induction false} DepartsList(t: Str, i: nat, items: seq<Json>, depth: nat, f: Str, b: Str)
    requires (exists x :: x in items && !NoFinalBackslash(x)) && Here(t, i, RenderItems(items, true, depth) + f)
    requires OnlyLastItem(items) ==> Strays(f, b)
    ensures Departs(MinifyFrom(t, i), RenderItems(items, false, depth) + b)
    decreases items, 0
  {
    hide Here, Writes, Departs, MinifyFrom, Strays, NoFinalBackslash, OnlyLast, Render, RenderItems, Separator;
    var x, rest, more, bare := items[0], items[1..], AfterItem(items, true, depth), AfterItem(items, false, depth);
    RenderNext(items, true, depth);
    RenderNext(items, false, depth);
    assert RenderItems(items, true, depth) + f == Render(x, true, depth) + (more + f);
    assert RenderItems(items, false, depth) + b == Render(x, false, depth) + (bare + b);
    if NoFinalBackslash(x) {
      var j := i + |Render(x, true, depth)|;
      WritesRendered(t, i, x, depth, more + f);
      SpaceAfterComma(true);
      SpaceAfterComma(false);
      var s, s' := RenderItems(rest, true, depth), RenderItems(rest, false, depth);
      assert more + f == [COMMA] + ([SPACE] + (s + f));
      assert bare + b == [COMMA] + (s' + b);
      OneSpace();
      WritesOpening(t, j, COMMA, [SPACE], s + f);
      DepartsList(t, j + 2, rest, depth, f, b);
      Apart(t, j, [COMMA], j + 2, s' + b, bare + b);
      Apart(t, i, Render(x, false, depth), j, bare + b, RenderItems(items, false, depth) + b);
    } else {
      if OnlyLast(x) { StraysAfterItem(items, depth, f, b); }
      DepartsRendered(t, i, x, depth, more + f, bare + b);
    }
  }

  lemma StraysAfterItem(items: seq<Json>, depth: nat, f: Str, b: Str)
    requires items != [] && (|items| == 1 ==> Strays(f, b))
    ensures Strays(AfterItem(items, true, depth) + f, AfterItem(items, false, depth) + b)
  {
    hide Strays, Render, Separator, RenderItems;
    if |items| == 1 {
      assert [] + f == f && [] + b == b;
    } else {
      var rest := items[1..];
      SpaceAfterComma(true);
      SpaceAfterComma(false);
      RenderNext(rest, false, depth);
      RenderStart(rest[0], depth);
      StraysAfter(COMMA, SPACE, RenderItems(rest, true, depth) + f, RenderItems(rest, false, depth) + b);
      assert AfterItem(items, true, depth) + f == [COMMA] + ([SPACE] + (RenderItems(rest, true, depth) + f));
      assert AfterItem(items, false, depth) + b == [COMMA] + (RenderItems(rest, false, depth) + b);
    }
  }

  lemma {:induction false} DepartsObject(t: Str, i: nat, members: seq<Member<Json>>, depth: nat, f: Str, b: Str)
    requires !NoFinalBackslash(Object(members)) && Here(t, i, Render(Object(members), true, depth) + f)
    ensures Departs(MinifyFrom(t, i), Render(Object(members), false, depth) + b)
    decreases members, 3
  {
    hide Here, Writes, Departs, MinifyFrom, MemberPlain, RenderMembers, Tabs;
    var f', b' := Tabs(depth) + ([RIGHT_BRACE] + f), [RIGHT_BRACE] + b;
    var s, s' := RenderMembers(members, true, depth + 1), RenderMembers(members, false, depth + 1);
    assert Render(Object(members), true, depth) + f == [LEFT_BRACE] + ([NEWLINE] + (s + f'));
    TabsBlank(0);
    WritesOpening(t, i, LEFT_BRACE, [NEWLINE], s + f');
    DepartsMembers(t, i + 2, members, depth + 1, f', b');
    assert Render(Object(members), false, depth) + b == [LEFT_BRACE] + (s' + b');
    Apart(t, i, [LEFT_BRACE], i + 2, s' + b', Render(Object(members), false, depth) + b);
  }

  lemma {:induction false} DepartsMembers(t: Str, i: nat, members: seq<Member<Json>>, depth: nat, f: Str, b: Str)
    requires (exists m :: m in members && !MemberPlain(m)) && Here(t, i, RenderMembers(members, true, depth) + f)
    requires b != [] && !Blank(b[0])
    ensures Departs(MinifyFrom(t, i), RenderMembers(members, false, depth) + b)
    decreases members, 2
  {
    hide Here, Writes, Departs, MinifyFrom, MemberPlain, RenderNamed, Tabs;
    var s, s' := RenderNamed(members, true, depth), RenderNamed(members, false, depth);
    assert RenderMembers(members, true, depth) + f == Tabs(depth) + (s + f);
    assert RenderMembers(members, false, depth) + b == [] + (s' + b);
    TabsBlank(depth);
    HereSplit(t, i, Tabs(depth), s + f);
    WritesGap(t, i, Tabs(depth));
    DepartsNamed(t, i + depth, members, depth, f, b);
    Apart(t, i, [], i + depth, s' + b, RenderMembers(members, false, depth) + b);
  }

  /** What follows the value of the first of some members, in either print. */
  function MembersAfter(members: seq<Member<Json>>, format: bool, depth: nat): Str
    requires members != []
  {
    AfterMember(|members| == 1, format) + RenderMembers(members[1..], format, depth)
  }

  lemma NamedText(members: seq<Member<Json>>, depth: nat, f: Str, b: Str)
    requires members != []
    ensures var m := members[0];
            && RenderNamed(members, true, depth) + f ==
                 Literal(m.key) + ([COLON] + ([TAB] + (Render(m.value, true, depth) + (MembersAfter(members, true, depth) + f))))
            && RenderNamed(members, false, depth) + b ==
                 Literal(m.key) + ([COLON] + (Render(m.value, false, depth) + (MembersAfter(members, false, depth) + b)))
  {
    hide Literal, Render, MembersAfter, RenderMembers, AfterMember;
    assert MembersAfter(members, true, depth) == AfterMember(|members| == 1, true) + RenderMembers(members[1..], true, depth) by {
      AfterIs(members, true, depth);
    }
    AfterIs(members, false, depth);
  }

  lemma AfterIs(members: seq<Member<Json>>, format: bool, depth: nat)
    requires members != []
    ensures MembersAfter(members, format, depth) == AfterMember(|members| == 1, format) + RenderMembers(members[1..], format, depth)
  {
  }

  lemma {:induction false} DepartsNamed(t: Str, i: nat, members: seq<Member<Json>>, depth: nat, f: Str, b: Str)
    requires (exists m :: m in members && !MemberPlain(m)) && Here(t, i, RenderNamed(members, true, depth) + f)
    requires b != [] && !Blank(b[0])
    ensures Departs(MinifyFrom(t, i), RenderNamed(members, false, depth) + b)
    decreases members, 1
  {
    hide Here, Writes, Departs, MinifyFrom, NoFinalBackslash, RenderNamed, MembersAfter, Render, Literal, Strays, QuotedText, ClosesPlainly, EndsInBackslash;
    var m, key := members[0], Literal(members[0].key);
    var more, more' := Render(m.value, true, depth) + (MembersAfter(members, true, depth) + f), Render(m.value, false, depth) + (MembersAfter(members, false, depth) + b);
    NamedText(members, depth, f, b);
    PrintedCloses(m.key);
    LiteralText(m.key);
    RenderStart(m.value, depth);
    if EndsInBackslash(m.key) {
      StraysAfter(COLON, TAB, more, more');
      DepartsLiteral(t, i, SpellText(m.key), [COLON] + ([TAB] + more), [COLON] + more');
    } else {
      var j := i + |key|;
      HereSplit(t, i, key, [COLON] + ([TAB] + more));
      WritesLiteral(t, i, SpellText(m.key));
      TabsBlank(0);
      WritesOpening(t, j, COLON, [TAB], more);
      DepartsMember(t, j + 2, members, depth, f, b);
      Apart(t, j, [COLON], j + 2, more', [COLON] + more');
      Apart(t, i, key, j, [COLON] + more', RenderNamed(members, false, depth) + b);
    }
  }

  /** From the value of the first member on, whose name closes plainly. */
  lemma {:induction false} DepartsMember(t: Str, i: nat, members: seq<Member<Json>>, depth: nat, f: Str, b: Str)
    requires members != [] && !EndsInBackslash(members[0].key) && (exists m :: m in members && !MemberPlain(m))
    requires Here(t, i, Render(members[0].value, true, depth) + (MembersAfter(members, true, depth) + f))
    requires b != [] && !Blank(b[0])
    ensures Departs(MinifyFrom(t, i), Render(members[0].value, false, depth) + (MembersAfter(members, false, depth) + b))
    decreases members, 0
  {
    hide Here, Writes, Departs, MinifyFrom, NoFinalBackslash, RenderMembers, Render, Strays, EndsInBackslash;
    var m, more, more' := members[0], MembersAfter(members, true, depth) + f, MembersAfter(members, false, depth) + b;
    if NoFinalBackslash(m.value) {
      var j, rest := i + |Render(m.value, true, depth)|, members[1..];
      WritesRendered(t, i, m.value, depth, more);
      var s, s' := RenderMembers(rest, true, depth), RenderMembers(rest, false, depth);
      assert more == [COMMA] + ([NEWLINE] + (s + f)) && more' == [COMMA] + (s' + b);
      TabsBlank(0);
      WritesOpening(t, j, COMMA, [NEWLINE], s + f);
      DepartsMembers(t, j + 2, rest, depth, f, b);
      Apart(t, j, [COMMA], j + 2, s' + b, more');
      Apart(t, i, Render(m.value, false, depth), j, more', Render(m.value, false, depth) + more');
    } else {
      StraysAfterMember(members, depth, f, b);
      DepartsRendered(t, i, m.value, depth, more, more');
    }
  }

  lemma StraysAfterMember(members: seq<Member<Json>>, depth: nat, f: Str, b: Str)
    requires members != [] && b != [] && !Blank(b[0])
    ensures Strays(MembersAfter(members, true, depth) + f, MembersAfter(members, false, depth) + b)
  {
    hide Strays, Render, Literal, Tabs;
    var rest, more, more' := members[1..], MembersAfter(members, true, depth) + f, MembersAfter(members, false, depth) + b;
    if |members| == 1 {
      assert more == [NEWLINE] + f && more' == b;
      StraysNow(NEWLINE, f, b);
    } else {
      var s, s' := RenderMembers(rest, true, depth), RenderMembers(rest, false, depth);
      assert more == [COMMA] + ([NEWLINE] + (s + f)) && more' == [COMMA] + (s' + b);
      LiteralStart(rest[0].key);
      assert s' == [] + RenderNamed(rest, false, depth) && s'[0] == Literal(rest[0].key)[0];
      StraysAfter(COMMA, NEWLINE, s + f, s' + b);
    }
  }

  lemma LiteralStart(s: Str)
    ensures Literal(s) != [] && Literal(s)[0] == QUOTE
  {
  }

  // ---- where they agree all the same ----

  /** A quote missed at the end of the text does no harm: the rest is copied, and has no white space. */
  lemma {:induction false} CopiesRest(t: Str, i: nat, v: Json, depth: nat, f: Str)
    requires OnlyLast(v) && PlainText(f) && Here(t, i, Render(v, true, depth) + f) && |t| == i + |Render(v, true, depth) + f|
    ensures MinifyFrom(t, i) == Render(v, false, depth) + f
    decreases v, 1
  {
    hide Here, MinifyFrom, EndsInBackslash, StringEnd, RenderItems, PlainText;
    match v
    case String(s) =>
      PrintedCloses(s);
      LiteralText(s);
      CopiesLiteral(t, i, SpellText(s), f);
    case Array(items) =>
      var s, s' := RenderItems(items, true, depth + 1), RenderItems(items, false, depth + 1);
      assert Render(v, true, depth) + f == [LEFT_BRACKET] + ([] + (s + ([RIGHT_BRACKET] + f)));
      WritesOpening(t, i, LEFT_BRACKET, [], s + ([RIGHT_BRACKET] + f));
      PlainBracket(f);
      CopiesList(t, i + 1, items, depth + 1, [RIGHT_BRACKET] + f);
      assert Render(v, false, depth) + f == [LEFT_BRACKET] + (s' + ([RIGHT_BRACKET] + f));
    case _ =>
  }

  lemma PlainBracket(f: Str)
    requires PlainText(f)
    ensures PlainText([RIGHT_BRACKET] + f)
  {
  }

  lemma CopiesLiteral(t: Str, i: nat, q: seq<spelling>, f: Str)
    requires !ClosesPlainly(q) && PlainText(f) && Here(t, i, QuotedText(q) + f) && |t| == i + |QuotedText(q) + f|
    ensures MinifyFrom(t, i) == QuotedText(q) + f
  {
    hide WrittenAll, ClosesPlainly, MinifyFrom;
    var end := i + |QuotedText(q)|;
    HereSplit(t, i, QuotedText(q), f);
    FirstChar(t, i, QuotedText(q));
    HereSplit(t, i, [QUOTE], WrittenAll(q) + [QUOTE]);
    ScanLiteral(t, i + 1, q);
    ScanRest(t, end, f);
    MinifyQuote(t, i);
    assert t[i..|t|] == QuotedText(q) + f;
  }

  lemma {:induction false} CopiesList(t: Str, i: nat, items: seq<Json>, depth: nat, f: Str)
    requires OnlyLastItem(items) && PlainText(f) && Here(t, i, RenderItems(items, true, depth) + f)
    requires |t| == i + |RenderItems(items, true, depth) + f|
    ensures MinifyFrom(t, i) == RenderItems(items, false, depth) + f
    decreases items, 0
  {
    hide Here, MinifyFrom, NoFinalBackslash, OnlyLast, Render, RenderItems, Separator, PlainText;
    var x, rest := items[0], items[1..];
    RenderNext(items, true, depth);
    RenderNext(items, false, depth);
    if |items| == 1 {
      assert Render(x, true, depth) + [] == Render(x, true, depth) && Render(x, false, depth) + [] == Render(x, false, depth);
      CopiesRest(t, i, x, depth, f);
    } else {
      var j, s, s' := i + |Render(x, true, depth)|, RenderItems(rest, true, depth), RenderItems(rest, false, depth);
      SpaceAfterComma(true);
      SpaceAfterComma(false);
      assert RenderItems(items, true, depth) + f == Render(x, true, depth) + ([COMMA] + ([SPACE] + (s + f)));
      WritesRendered(t, i, x, depth, [COMMA] + ([SPACE] + (s + f)));
      OneSpace();
      WritesOpening(t, j, COMMA, [SPACE], s + f);
      CopiesList(t, j + 2, rest, depth, f);
      assert RenderItems(items, false, depth) + f == Render(x, false, depth) + ([COMMA] + (s' + f));
    }
  }

  /**
   * Minifying the formatted print gives the unformatted print if and only if no string or key ends in a
   * backslash, or one string alone does and nothing but closing brackets comes after it.
   */
  lemma MinifyFormatted(v: Json)
    ensures Minify(Render(v, true, 0)) == Render(v, false, 0) <==> NoFinalBackslash(v) || OnlyLast(v)
  {
    hide MinifyFrom, Render, NoFinalBackslash, OnlyLast, Departs;
    var t := Render(v, true, 0);
    assert t + [] == t && Render(v, false, 0) + [] == Render(v, false, 0);
    WholeText(t);
    if NoFinalBackslash(v) {
      MinifyPrinted(v, true);
    } else if OnlyLast(v) {
      CopiesRest(t, 0, v, 0, []);
    } else {
      DepartsRendered(t, 0, v, 0, [], []);
      DepartsDiffers(MinifyFrom(t, 0), Render(v, false, 0));
    }
  }
}

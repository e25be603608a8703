/** The text a tree is printed as, and the layout which that text is. */
module Rendering {
  import opened Bytes
  import opened Json
  import opened Pointers
  import opened Escapes
  import opened Spellings
  import opened Parsing
  import opened Layouts

  const NEWLINE: cchar := 10
  const TAB: cchar := 9
  const SPACE: cchar := 32

  /** `%d` */
  function PrintInt(n: int32): numeral {
    var m: nat := if n < 0 then -(n as int) else n;
    DecimalIsDigits(m);
    (if n < 0 then [DASH] else []) + Decimal(m)
  }

  lemma {:induction false} DecimalIsDigits(n: nat)
    ensures Decimal(n) != [] && AllDigits(Decimal(n))
  {
    if n >= 10 { DecimalIsDigits(n / 10); }
  }

  function Tabs(n: nat): (s: Str)
    ensures |s| == n && forall i | 0 <= i < n :: s[i] == TAB
  {
    seq(n, _ => TAB)
  }

  /** The text of a value that is printed at a nesting depth. */
  function Render(v: Json, format: bool, depth: nat): Str
    decreases v
  {
    match v
    case Null => NULL_WORD
    case False => FALSE_WORD
    case True => TRUE_WORD
    case Number(n) => PrintInt(n)
    case String(s) => Literal(s)
    case Array(items) => [LEFT_BRACKET] + (RenderItems(items, format, depth + 1) + [RIGHT_BRACKET])
    case Object(members) =>
      (if format then [LEFT_BRACE, NEWLINE] else [LEFT_BRACE]) +
      (RenderMembers(members, format, depth + 1) + ((if format then Tabs(depth) else []) + [RIGHT_BRACE]))
  }

  function Separator(format: bool): Str {
    if format then [COMMA, SPACE] else [COMMA]
  }

  function RenderItems(items: seq<Json>, format: bool, depth: nat): Str
    decreases items
  {
    if items == [] then []
    else
      Render(items[0], format, depth) +
      ((if |items| == 1 then [] else Separator(format)) + RenderItems(items[1..], format, depth))
  }

  function AfterKey(format: bool): Str {
    if format then [COLON, TAB] else [COLON]
  }

  /** What follows a member: a comma unless it is the last, and a new line in formatted text. */
  function AfterMember(last: bool, format: bool): Str {
    (if last then [] else [COMMA]) + (if format then [NEWLINE] else [])
  }

  function RenderMembers(members: seq<Member<Json>>, format: bool, depth: nat): Str
    decreases members, 1
  {
    if members == [] then []
    else (if format then Tabs(depth) else []) + RenderNamed(members, format, depth)
  }

  /** The members from the first one's name on. */
  function RenderNamed(members: seq<Member<Json>>, format: bool, depth: nat): Str
    requires members != []
    decreases members, 0
  {
    Literal(members[0].key) +
    (AfterKey(format) +
     (Render(members[0].value, format, depth) +
      (AfterMember(|members| == 1, format) + RenderMembers(members[1..], format, depth))))
  }

  // ---- the layout that is printed ----

  /** White space that only formatted text has. */
  function Formatted(format: bool, g: gap): gap {
    if format then g else []
  }

  function Laid(v: Json, format: bool, depth: nat): Layout
    decreases v
  {
    match v
    case Null => NullWord
    case False => FalseWord
    case True => TrueWord
    case Number(n) => Numeral(PrintInt(n), n)
    case String(s) => Quoted(SpellText(s))
    case Array(items) => Items([], LaidItems(items, format, depth + 1, []))
    case Object(members) =>
      Entries(Formatted(format, [NEWLINE] + (if members == [] then Tabs(depth) else [])),
              LaidMembers(members, format, depth + 1, Formatted(format, Tabs(depth + 1))))
  }

  function SpellText(s: Str): (q: seq<spelling>)
    ensures WrittenAll(q) == EscapeText(s) && StandsAll(q) == s
  {
    SpellAllStands(s);
    assert forall sp | sp in SpellAll(s) :: WellSpelled(sp);
    SpellAll(s)
  }

  /** `before` stands before the first of the elements. */
  function LaidItems(items: seq<Json>, format: bool, depth: nat, before: gap): (r: seq<Item>)
    ensures |r| == |items|
    decreases items
  {
    if items == [] then []
    else
      [Item(before, Laid(items[0], format, depth), [])] + LaidItems(items[1..], format, depth, Formatted(format, [SPACE]))
  }

  function LaidMembers(members: seq<Member<Json>>, format: bool, depth: nat, before: gap): (r: seq<Entry>)
    requires depth > 0
    ensures |r| == |members|
    decreases members
  {
    if members == [] then []
    else
      [Entry(before, SpellText(members[0].key), [], Formatted(format, [TAB]), Laid(members[0].value, format, depth),
             Formatted(format, if |members| == 1 then [NEWLINE] + Tabs(depth - 1) else []))] +
      LaidMembers(members[1..], format, depth, Formatted(format, [NEWLINE] + Tabs(depth)))
  }

  /** What is printed is the text of that layout, and the layout spells the tree. */
  lemma {:induction false} LaidAsRendered(v: Json, format: bool, depth: nat)
    ensures LayoutText(Laid(v, format, depth)) == Render(v, format, depth)
    ensures Tree(Laid(v, format, depth)) == v
    decreases v
  {
    match v
    case Array(items) => LaidItemsAsRendered(items, format, depth + 1, []);
    case Object(members) => LaidObjectAsRendered(members, format, depth);
    case _ =>
  }

  lemma {:induction false} LaidItemsAsRendered(items: seq<Json>, format: bool, depth: nat, before: gap)
    ensures ItemsText(LaidItems(items, format, depth, before)) ==
            (if items == [] then [] else before) + (RenderItems(items, format, depth) + [RIGHT_BRACKET])
    ensures TreeItems(LaidItems(items, format, depth, before)) == items
    decreases items
  {
    hide Laid, Render, LayoutText, Tree, Formatted, Separator, RenderItems;
    if items == [] {
      NoItemsRendered(format, depth);
    } else {
      var space, value := Formatted(format, [SPACE]), Render(items[0], format, depth);
      LaidAsRendered(items[0], format, depth);
      LaidItemsAsRendered(items[1..], format, depth, space);
      RenderNext(items, format, depth);
      SpaceAfterComma(format);
      GlueItems(before, value, space, RenderItems(items[1..], format, depth));
    }
  }

  lemma NoItemsRendered(format: bool, depth: nat)
    ensures RenderItems([], format, depth) == []
  {
  }

  lemma RenderNext(items: seq<Json>, format: bool, depth: nat)
    requires items != []
    ensures RenderItems(items, format, depth) ==
            Render(items[0], format, depth) +
            (if |items| == 1 then [] else Separator(format) + RenderItems(items[1..], format, depth))
  {
    hide Render, Separator;
  }

  lemma SpaceAfterComma(format: bool)
    ensures Separator(format) == [COMMA] + Formatted(format, [SPACE])
  {
  }

  lemma GlueItems(before: Str, value: Str, space: Str, rest: Str)
    ensures before + (value + ([] + ([COMMA] + (space + (rest + [RIGHT_BRACKET]))))) ==
            before + ((value + (([COMMA] + space) + rest)) + [RIGHT_BRACKET])
    ensures before + (value + ([] + [RIGHT_BRACKET])) == before + (value + [RIGHT_BRACKET])
  {
  }

  lemma {:induction false} LaidObjectAsRendered(members: seq<Member<Json>>, format: bool, depth: nat)
    ensures LayoutText(Laid(Object(members), format, depth)) == Render(Object(members), format, depth)
    ensures Tree(Laid(Object(members), format, depth)) == Object(members)
    decreases members, 1
  {
    hide LaidMembers, RenderNamed, EntriesText, TreeEntries, Tabs;
    var tabs := Formatted(format, Tabs(depth + 1));
    LaidMembersAsRendered(members, format, depth + 1, tabs);
    if members == [] {
      NoMembers(format, depth);
    } else {
      GlueObject(Formatted(format, [NEWLINE]), tabs, RenderNamed(members, format, depth + 1), MembersEnd(format, depth + 1));
    }
  }

  lemma GlueObject(newline: Str, tabs: Str, named: Str, end: Str)
    ensures [LEFT_BRACE] + (newline + (tabs + (named + end))) == ([LEFT_BRACE] + newline) + ((tabs + named) + end)
  {
  }

  lemma NoMembers(format: bool, depth: nat)
    ensures EntriesText(LaidMembers([], format, depth + 1, Formatted(format, Tabs(depth + 1)))) == [RIGHT_BRACE]
    ensures RenderMembers([], format, depth + 1) == []
  {
  }

  function MembersEnd(format: bool, depth: nat): Str
    requires depth > 0
  {
    Formatted(format, Tabs(depth - 1)) + [RIGHT_BRACE]
  }

  lemma {:induction false} LaidMembersAsRendered(members: seq<Member<Json>>, format: bool, depth: nat, before: gap)
    requires depth > 0
    ensures TreeEntries(LaidMembers(members, format, depth, before)) == members
    ensures members != [] ==>
              EntriesText(LaidMembers(members, format, depth, before)) ==
              before + (RenderNamed(members, format, depth) + MembersEnd(format, depth))
    decreases members, 0
  {
    hide Laid, Render, LayoutText, Tree, Literal, QuotedText, RenderNamed, MembersEnd, EntryText, Formatted, Tabs;
    if members != [] {
      var between: gap := Formatted(format, [NEWLINE] + Tabs(depth));
      LaidAsRendered(members[0].value, format, depth);
      LaidMembersAsRendered(members[1..], format, depth, between);
      LaidMember(members, format, depth, before, EntriesText(LaidMembers(members[1..], format, depth, between)));
    }
  }

  lemma Glue(name: Str, tab: Str, value: Str, tail: Str, printed: Str, end: Str)
    requires tail == printed + end
    ensures name + ([] + ([COLON] + (tab + (value + tail)))) == (name + (([COLON] + tab) + (value + printed))) + end
  {
  }

  lemma LastTail(format: bool, depth: nat)
    requires depth > 0
    ensures Formatted(format, [NEWLINE] + Tabs(depth - 1)) + [RIGHT_BRACE] ==
            (AfterMember(true, format) + RenderMembers([], format, depth)) + MembersEnd(format, depth)
  {
    hide Tabs;
  }

  lemma MiddleTail(members: seq<Member<Json>>, format: bool, depth: nat, tail: Str)
    requires depth > 0 && members != []
    requires tail == Formatted(format, [NEWLINE] + Tabs(depth)) + (RenderNamed(members, format, depth) + MembersEnd(format, depth))
    ensures Formatted(format, []) + ([COMMA] + tail) ==
            (AfterMember(false, format) + RenderMembers(members, format, depth)) + MembersEnd(format, depth)
  {
    hide Tabs, RenderNamed, MembersEnd;
    var newline, tabs, named, end := Formatted(format, [NEWLINE]), Formatted(format, Tabs(depth)), RenderNamed(members, format, depth), MembersEnd(format, depth);
    assert Formatted(format, [NEWLINE] + Tabs(depth)) == newline + tabs;
    assert AfterMember(false, format) == [COMMA] + newline;
    assert RenderMembers(members, format, depth) == tabs + named;
    GlueMiddle(newline, tabs, named, end);
  }

  lemma GlueMiddle(newline: Str, tabs: Str, named: Str, end: Str)
    ensures [] + ([COMMA] + ((newline + tabs) + (named + end))) == (([COMMA] + newline) + (tabs + named)) + end
  {
  }

  lemma LaidMember(members: seq<Member<Json>>, format: bool, depth: nat, before: gap, tail: Str)
    requires depth > 0 && members != []
    requires LayoutText(Laid(members[0].value, format, depth)) == Render(members[0].value, format, depth)
    requires |members| > 1 ==>
               tail == Formatted(format, [NEWLINE] + Tabs(depth)) + (RenderNamed(members[1..], format, depth) + MembersEnd(format, depth))
    ensures EntryText(LaidMembers(members, format, depth, before)[0], if |members| == 1 then [RIGHT_BRACE] else [COMMA] + tail) ==
            before + (RenderNamed(members, format, depth) + MembersEnd(format, depth))
  {
    hide Laid, Render, LayoutText, RenderMembers, Tabs, MembersEnd, AfterMember, Formatted, Literal, QuotedText, AfterKey;
    var last := |members| == 1;
    var after := Formatted(format, if last then [NEWLINE] + Tabs(depth - 1) else []);
    var rest := if last then [RIGHT_BRACE] else [COMMA] + tail;
    var printed := AfterMember(last, format) + RenderMembers(members[1..], format, depth);
    if last {
      LastTail(format, depth);
    } else {
      MiddleTail(members[1..], format, depth, tail);
    }
    assert after + rest == printed + MembersEnd(format, depth);
    KeyText(members[0].key, format);
    Glue(Literal(members[0].key), Formatted(format, [TAB]), Render(members[0].value, format, depth), after + rest, printed, MembersEnd(format, depth));
  }

  lemma KeyText(key: Str, format: bool)
    ensures QuotedText(SpellText(key)) == Literal(key)
    ensures AfterKey(format) == [COLON] + Formatted(format, [TAB])
  {
  }
}

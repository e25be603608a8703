/** Parsing undoes printing, in both forms of text. */
module PrintParse {
  import opened Bytes
  import opened Json
  import opened Pointers
  import opened Parsing
  import opened Layouts
  import opened Reading
  import opened Rendering

  /** The decimal numeral of an integer: digits without a leading zero, after a minus sign if it is negative. */
  predicate IsDecimal(s: Str, n: int) {
    if n < 0 then s != [] && s[0] == '-' as int && RfcIndex(s[1..]) == Some(-n) else RfcIndex(s) == Some(n)
  }

  /** `strtod` reads the decimal numeral of a 32-bit integer whole, and as that integer. */
  ghost predicate ReadsIntegers(strtod: Strtod) {
    forall s: Str, n: int32 :: IsDecimal(s, n) ==> strtod(s) == (n as real, |s|)
  }

  /** An integer is printed as its decimal numeral. */
  lemma PrintedInteger(n: int32)
    ensures IsDecimal(PrintInt(n), n)
  {
    var m: nat := if n < 0 then -(n as int) else n;
    DecimalIsIndex(m);
    assert if n < 0 then PrintInt(n)[1..] == Decimal(m) else PrintInt(n) == Decimal(m);
  }

  lemma {:induction false} DecimalDigits(n: nat, digits: nat)
    requires digits > 0 && n < Power10(digits)
    ensures |Decimal(n)| <= digits
    decreases digits
  {
    if n >= 10 { DecimalDigits(n / 10, digits - 1); }
  }

  function Power10(k: nat): nat {
    if k == 0 then 1 else 10 * Power10(k - 1)
  }

  lemma PrintIntReads(n: int32, strtod: Strtod)
    requires ReadsIntegers(strtod)
    ensures ReadsAs(PrintInt(n), n, strtod)
  {
    var m: nat := if n < 0 then -(n as int) else n;
    assert Power10(10) == 10 * (10 * (10 * (10 * (10 * (10 * (10 * (10 * (10 * Power10(1)))))))));
    DecimalDigits(m, 10);
    DecimalIsDigits(m);
    PrintedInteger(n);
    assert PrintInt(n) == (if n < 0 then [DASH] else []) + Decimal(m);
    IntegerToInt(n);
  }

  lemma IntegerToInt(n: int32)
    ensures ToInt(n as real) == n
  {
  }

  lemma {:induction false} LaidNumerals(v: Json, format: bool, depth: nat, strtod: Strtod)
    requires ReadsIntegers(strtod)
    ensures NumeralsRead(Laid(v, format, depth), strtod)
    decreases v
  {
    hide ReadsIntegers, ReadsAs, SpellText, PrintInt, LaidItems, LaidMembers, Tabs, Formatted;
    match v
    case Number(n) => PrintIntReads(n, strtod);
    case Array(items) => LaidItemNumerals(items, format, depth + 1, [], strtod);
    case Object(members) => LaidMemberNumerals(members, format, depth + 1, Formatted(format, Tabs(depth + 1)), strtod);
    case _ =>
  }

  lemma {:induction false} LaidItemNumerals(items: seq<Json>, format: bool, depth: nat, before: gap, strtod: Strtod)
    requires ReadsIntegers(strtod)
    ensures forall x | x in LaidItems(items, format, depth, before) :: NumeralsRead(x.value, strtod)
    decreases items
  {
    hide ReadsIntegers, NumeralsRead, Laid;
    if items != [] {
      LaidNumerals(items[0], format, depth, strtod);
      LaidItemNumerals(items[1..], format, depth, Formatted(format, [SPACE]), strtod);
    }
  }

  lemma {:induction false} LaidMemberNumerals(members: seq<Member<Json>>, format: bool, depth: nat, before: gap, strtod: Strtod)
    requires ReadsIntegers(strtod) && depth > 0
    ensures forall e | e in LaidMembers(members, format, depth, before) :: NumeralsRead(e.value, strtod)
    decreases members
  {
    hide ReadsIntegers, NumeralsRead, Laid, SpellText;
    if members != [] {
      LaidNumerals(members[0].value, format, depth, strtod);
      LaidMemberNumerals(members[1..], format, depth, Formatted(format, [NEWLINE] + Tabs(depth)), strtod);
    }
  }

  /** Either print of a tree parses to the same tree, members in the same order, exactly when its containers nest within the limit. */
  lemma PrintedParsesBack(v: Json, format: bool, strtod: Strtod, requireNullTerminated: bool)
    requires ReadsIntegers(strtod)
    ensures var r := ParseWithOpts(Input(Render(v, format, 0), strtod), requireNullTerminated);
            if Nesting(v) <= NESTING_LIMIT then r.Ok? && r.value == v else r.Err?
  {
    hide ReadsIntegers, ParseWithOpts, LayoutText, Tree, NumeralsRead, Laid, Render, Nesting;
    var l := Laid(v, format, 0);
    LaidAsRendered(v, format, 0);
    LaidNumerals(v, format, 0, strtod);
    ParseLayout([], l, [], strtod, requireNullTerminated);
    assert [] + (LayoutText(l) + []) == LayoutText(l);
  }
}

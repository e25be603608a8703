/**
 * Operations on another member of an object than the one named: exactly when they come to what
 * section 4 of RFC 6902 prescribes all the same.
 */
module OtherMembers {
  import opened Bytes
  import opened Json
  import opened Pointers
  import opened Rfc6902

  predicate ObjectAt(v: Value, p: Path, cs: bool) {
    Get(v, p, cs).Some? && Get(v, p, cs).value.VObject?
  }

  function MembersAt(v: Value, p: Path, cs: bool): map<Str, Value>
    requires ObjectAt(v, p, cs)
  {
    Get(v, p, cs).value.members
  }

  /** The document without the member `j` of the object at `p`. */
  function Dropped(v: Value, p: Path, j: Str, cs: bool): Value
    requires ObjectAt(v, p, cs)
  {
    PutPath(v, p, VObject(MembersAt(v, p, cs) - {Fold(j, cs)}), cs)
  }

  lemma RemoveDrops(v: Value, p: Path, j: Str, cs: bool)
    requires ObjectAt(v, p, cs)
    ensures var m := MembersAt(v, p, cs);
            && Get(v, p + [j], cs) == (if Fold(j, cs) in m then Some(m[Fold(j, cs)]) else None)
            && Apply(v, p + [j], Remove, cs) == if Fold(j, cs) in m then Some(Dropped(v, p, j, cs)) else None
  {
    ApplyUnder(v, p, [j], Remove, cs);
    GetConcat(v, p, [j], cs);
    assert [j][1..] == [];
  }

  /** remove: another name does as well exactly if it is the same name, or there is no member of either. */
  lemma RemovalsAgree(v: Value, p: Path, j: Str, other: Str, cs: bool)
    requires ObjectAt(v, p, cs)
    ensures Apply(v, p + [j], Remove, cs) == Apply(v, p + [other], Remove, cs) <==>
            Fold(j, cs) == Fold(other, cs) || (Get(v, p + [j], cs).None? && Get(v, p + [other], cs).None?)
  {
    var m := MembersAt(v, p, cs);
    var a, b := VObject(m - {Fold(j, cs)}), VObject(m - {Fold(other, cs)});
    RemoveDrops(v, p, j, cs);
    RemoveDrops(v, p, other, cs);
    GetAfterPut(v, p, a, cs);
    GetAfterPut(v, p, b, cs);
    if Fold(j, cs) in m && Fold(other, cs) in m && Fold(j, cs) != Fold(other, cs) {
      assert Fold(other, cs) in a.members && Fold(other, cs) !in b.members;
    }
  }

  lemma AddPuts(v: Value, p: Path, j: Str, x: Value, cs: bool)
    requires ObjectAt(v, p, cs)
    ensures Apply(v, p + [j], Add(x), cs) == Some(PutPath(v, p, VObject(MembersAt(v, p, cs)[Fold(j, cs) := x]), cs))
  {
    ApplyUnder(v, p, [j], Add(x), cs);
  }

  lemma PutsAgree(v: Value, p: Path, a: Value, b: Value, cs: bool)
    requires Get(v, p, cs).Some?
    ensures PutPath(v, p, a, cs) == PutPath(v, p, b, cs) <==> a == b
  {
    GetAfterPut(v, p, a, cs);
    GetAfterPut(v, p, b, cs);
  }

  /** Both members are there and hold the value. */
  predicate BothHold(v: Value, p: Path, j: Str, other: Str, x: Value, cs: bool) {
    Get(v, p + [j], cs) == Get(v, p + [other], cs) == Some(x)
  }

  /** add: another name does as well exactly if it is the same name, or nothing changes under either. */
  lemma AdditionsAgree(v: Value, p: Path, j: Str, other: Str, x: Value, cs: bool)
    requires ObjectAt(v, p, cs)
    ensures Apply(v, p + [j], Add(x), cs) == Apply(v, p + [other], Add(x), cs) <==>
            Fold(j, cs) == Fold(other, cs) || BothHold(v, p, j, other, x, cs)
  {
    var m := MembersAt(v, p, cs);
    AddPuts(v, p, j, x, cs);
    AddPuts(v, p, other, x, cs);
    RemoveDrops(v, p, j, cs);
    RemoveDrops(v, p, other, cs);
    PutsAgree(v, p, VObject(m[Fold(j, cs) := x]), VObject(m[Fold(other, cs) := x]), cs);
    UpdatesAgree(m, Fold(j, cs), Fold(other, cs), x);
  }

  lemma UpdatesAgree<K, V>(m: map<K, V>, a: K, b: K, x: V)
    ensures m[a := x] == m[b := x] <==> a == b || (a in m && b in m && m[a] == x && m[b] == x)
  {
    if a in m && b in m && m[a] == x && m[b] == x {
      assert m[a := x] == m == m[b := x];
    }
    if m[a := x] == m[b := x] && a != b {
      assert a in m[b := x] && b in m[a := x];
      assert m[b := x][a] == x && m[a := x][b] == x;
    }
  }

  /** replace, when it removes one member and adds under another name. */
  lemma ReplacementsAgree(v: Value, p: Path, j: Str, removed: Str, added: Str, x: Value, cs: bool)
    requires ObjectAt(v, p, cs) && Fold(removed, cs) in MembersAt(v, p, cs)
    ensures Apply(v, p + [removed], Remove, cs) == Some(Dropped(v, p, removed, cs))
    ensures Apply(Dropped(v, p, removed, cs), p + [added], Add(x), cs) == Apply(v, p + [j], Replace(x), cs) <==>
            && Get(v, p + [j], cs).Some? && Fold(removed, cs) == Fold(added, cs)
            && (Fold(j, cs) == Fold(added, cs) || BothHold(v, p, j, added, x, cs))
  {
    var m := MembersAt(v, p, cs);
    var rest := m - {Fold(removed, cs)};
    RemoveDrops(v, p, removed, cs);
    RemoveDrops(v, p, added, cs);
    RemoveDrops(v, p, j, cs);
    GetAfterPut(v, p, VObject(rest), cs);
    AddPuts(Dropped(v, p, removed, cs), p, added, x, cs);
    PutTwice(v, p, VObject(rest), VObject(rest[Fold(added, cs) := x]), cs);
    ReplacePuts(v, p, j, x, cs);
    PutsAgree(v, p, VObject(rest[Fold(added, cs) := x]), VObject(m[Fold(j, cs) := x]), cs);
    if Fold(j, cs) in m { ReAddAgrees(m, Fold(j, cs), Fold(removed, cs), Fold(added, cs), x); }
  }

  lemma ReplacePuts(v: Value, p: Path, j: Str, x: Value, cs: bool)
    requires ObjectAt(v, p, cs)
    ensures var m := MembersAt(v, p, cs);
            Apply(v, p + [j], Replace(x), cs) ==
            if Fold(j, cs) in m then Some(PutPath(v, p, VObject(m[Fold(j, cs) := x]), cs)) else None
  {
    ApplyUnder(v, p, [j], Replace(x), cs);
  }

  lemma ReAddAgrees<K, V>(m: map<K, V>, k: K, removed: K, added: K, x: V)
    requires removed in m && k in m
    ensures (m - {removed})[added := x] == m[k := x] <==>
            removed == added && (k == added || (added in m && m[k] == x && m[added] == x))
  {
    if removed == added {
      assert (m - {removed})[added := x] == m[added := x];
      UpdatesAgree(m, k, added, x);
    } else {
      assert removed in m[k := x] && removed !in (m - {removed})[added := x];
    }
  }

  // ---- where an addition is legal ----

  /** Whether a value can be added at a location does not depend on the value. */
  predicate AddLegal(v: Value, path: Path, cs: bool)
    requires path != []
  {
    Apply(v, path, Add(VNull), cs).Some?
  }

  lemma SameElement(a: Str, b: Str)
    requires RfcIndex(a).Some? && RfcIndex(a) == RfcIndex(b)
    ensures a == b
  {
    IndexIsDecimal(a);
    IndexIsDecimal(b);
  }

  lemma IntoStep(from: Path, path: Path, cs: bool)
    requires from != [] && path != []
    ensures IntoItself(from, path, cs) <==> |path| > 1 && Fold(from[0], cs) == Fold(path[0], cs) && IntoItself(from[1..], path[1..], cs)
  {
    if |from| < |path| {
      var front, tail := path[..|from|], path[1..][..|from| - 1];
      assert forall i | 0 <= i < |tail| :: tail[i] == front[i + 1];
      if Fold(from[0], cs) == Fold(path[0], cs) && SameTokens(from[1..], tail, cs) {
        forall i | 0 <= i < |from| ensures Fold(from[i], cs) == Fold(front[i], cs) {
          if i > 0 { assert from[i] == from[1..][i - 1]; }
        }
      }
    }
  }

  /** Once a member is gone, every target is legal that was, save those inside it. */
  lemma {:induction false} LegalAfterDrop(v: Value, p: Path, j: Str, path: Path, x: Value, cs: bool)
    requires ObjectAt(v, p, cs) && path != []
    ensures Apply(Dropped(v, p, j, cs), path, Add(x), cs).Some? <==> AddLegal(v, path, cs) && !IntoItself(p + [j], path, cs)
  {
    IntoStep(p + [j], path, cs);
    if p == [] {
      assert (p + [j])[1..] == [];
      if |path| > 1 && ChildOf(v, path[0], cs).Some? { LegalWhatever(ChildOf(v, path[0], cs).value, path[1..], x, cs); }
    } else {
      hide IntoItself, SameTokens;
      assert (p + [j])[1..] == p[1..] + [j];
      var c := ChildOf(v, p[0], cs).value;
      StepsToChild(v, p[0], path[0], cs);
      if |path| > 1 && SameChild(v, p[0], path[0], cs) {
        LegalAfterDrop(c, p[1..], j, path[1..], x, cs);
        LegalInChild(v, p[0], Dropped(c, p[1..], j, cs), path, x, cs);
      } else {
        LegalBeside(v, p[0], Dropped(c, p[1..], j, cs), path, x, cs);
      }
    }
  }

  lemma LegalHere(v: Value, token: Str, c: Value, last: Str, x: Value, cs: bool)
    requires ChildOf(v, token, cs).Some?
    ensures EditHere(PutChild(v, token, c, cs), last, Add(x), cs).Some? <==> EditHere(v, last, Add(VNull), cs).Some?
  {
    hide Fold, AllDigits, DecimalValue;
  }

  lemma LegalInChild(v: Value, token: Str, c: Value, path: Path, x: Value, cs: bool)
    requires ChildOf(v, token, cs).Some? && |path| > 1 && SameChild(v, token, path[0], cs)
    ensures Apply(PutChild(v, token, c, cs), path, Add(x), cs).Some? <==> Apply(c, path[1..], Add(x), cs).Some?
    ensures AddLegal(v, path, cs) <==> AddLegal(ChildOf(v, token, cs).value, path[1..], cs)
  {
    hide EditHere, Fold, RfcIndex, PutChild, ChildOf, SameChild;
    StepsToChild(v, token, path[0], cs);
  }

  lemma LegalBeside(v: Value, token: Str, c: Value, path: Path, x: Value, cs: bool)
    requires ChildOf(v, token, cs).Some? && path != [] && (|path| == 1 || !SameChild(v, token, path[0], cs))
    ensures Apply(PutChild(v, token, c, cs), path, Add(x), cs).Some? <==> AddLegal(v, path, cs)
  {
    hide EditHere, Fold, RfcIndex, PutChild, ChildOf, SameChild;
    if |path| == 1 {
      LegalHere(v, token, c, path[0], x, cs);
    } else {
      StepsToChild(v, token, path[0], cs);
      if ChildOf(v, path[0], cs).Some? { LegalWhatever(ChildOf(v, path[0], cs).value, path[1..], x, cs); }
    }
  }

  lemma {:induction false} LegalWhatever(v: Value, path: Path, x: Value, cs: bool)
    requires path != []
    ensures Apply(v, path, Add(x), cs).Some? <==> AddLegal(v, path, cs)
  {
    if |path| > 1 && ChildOf(v, path[0], cs).Some? { LegalWhatever(ChildOf(v, path[0], cs).value, path[1..], x, cs); }
  }

  /** The two tokens name the same child. */
  predicate SameChild(v: Value, a: Str, b: Str, cs: bool) {
    match v
    case VArray(_) => RfcIndex(a) == RfcIndex(b)
    case VObject(_) => Fold(a, cs) == Fold(b, cs)
    case _ => false
  }

  lemma StepsToChild(v: Value, a: Str, b: Str, cs: bool)
    requires ChildOf(v, a, cs).Some?
    ensures SameChild(v, a, b, cs) <==> Fold(a, cs) == Fold(b, cs)
    ensures SameChild(v, a, b, cs) ==> ChildOf(v, a, cs) == ChildOf(v, b, cs)
    ensures forall x :: ChildOf(PutChild(v, a, x, cs), b, cs) == if SameChild(v, a, b, cs) then Some(x) else ChildOf(v, b, cs)
  {
    if v.VArray? {
      if SameChild(v, a, b, cs) { SameElement(a, b); }
      if Fold(a, cs) == Fold(b, cs) { DigitsFold(a, b, cs); }
    }
  }

  // ---- move ----

  /** The target is a member, and the location `from` is that member or inside it. */
  predicate Covers(v: Value, path: Path, from: Path, cs: bool) {
    && 0 < |path| <= |from| && SameTokens(path, from[..|path|], cs)
    && ObjectAt(v, path[..|path| - 1], cs)
  }

  /** The same, one token at a time. */
  lemma CoversStep(v: Value, path: Path, from: Path, cs: bool)
    requires from != [] && path != [] && ChildOf(v, from[0], cs).Some?
    ensures Covers(v, path, from, cs) <==>
            && SameChild(v, from[0], path[0], cs)
            && if |path| == 1 then v.VObject? else Covers(ChildOf(v, from[0], cs).value, path[1..], from[1..], cs)
  {
    StepsToChild(v, from[0], path[0], cs);
    if |path| == 1 {
      assert path[..0] == [];
    } else if |path| <= |from| {
      assert path[..|path| - 1][1..] == path[1..][..|path| - 2];
      assert from[..|path|][1..] == from[1..][..|path| - 1];
      SameTokensStep(path, from[..|path|], cs);
    }
  }

  lemma SameTokensStep(p: Path, q: Path, cs: bool)
    requires p != [] && q != []
    ensures SameTokens(p, q, cs) <==> Fold(p[0], cs) == Fold(q[0], cs) && SameTokens(p[1..], q[1..], cs)
  {
    if |p| == |q| && Fold(p[0], cs) == Fold(q[0], cs) && SameTokens(p[1..], q[1..], cs) {
      forall i | 0 <= i < |p| ensures Fold(p[i], cs) == Fold(q[i], cs) {
        if i > 0 { assert p[i] == p[1..][i - 1] && q[i] == q[1..][i - 1]; }
      }
    }
  }

  /** What an object holds after two ways of dropping a member and adding one. */
  lemma DroppedHere(m: map<Str, Value>, j: Str, other: Str, path: Path, x: Value, y: Value, cs: bool)
    requires Fold(j, cs) in m && Fold(other, cs) in m && Fold(other, cs) != Fold(j, cs) && path != []
    requires Apply(VObject(m - {Fold(j, cs)}), path, Add(x), cs).Some?
    ensures Apply(VObject(m - {Fold(j, cs)}), path, Add(x), cs) != Apply(VObject(m - {Fold(other, cs)}), path, Add(y), cs)
  {
    var a, b := VObject(m - {Fold(j, cs)}), VObject(m - {Fold(other, cs)});
    KeysAfterAdd(a, path, x, cs);
    if Apply(b, path, Add(y), cs).Some? {
      KeysAfterAdd(b, path, y, cs);
      assert Fold(j, cs) in b.members && Fold(j, cs) !in a.members;
      assert Fold(other, cs) in a.members && Fold(other, cs) !in b.members;
    }
  }

  lemma KeysAfterAdd(v: Value, path: Path, x: Value, cs: bool)
    requires v.VObject? && path != [] && Apply(v, path, Add(x), cs).Some?
    ensures var r := Apply(v, path, Add(x), cs).value;
            r.VObject? && r.members.Keys == v.members.Keys + {Fold(path[0], cs)}
  {
  }

  /** Two documents that differ at `p` only still differ after two additions, unless the target covers `p`. */
  lemma AddedBesides(v: Value, p: Path, a: Value, b: Value, path: Path, x: Value, y: Value, cs: bool)
    requires p != [] && Get(v, p, cs).Some? && path != [] && a != b && (|path| == 1 || !SameChild(v, p[0], path[0], cs))
    requires Apply(PutPath(v, p, a, cs), path, Add(x), cs).Some? && Apply(PutPath(v, p, b, cs), path, Add(y), cs).Some?
    ensures Apply(PutPath(v, p, a, cs), path, Add(x), cs) == Apply(PutPath(v, p, b, cs), path, Add(y), cs)
            <==> |path| == 1 && v.VObject? && SameChild(v, p[0], path[0], cs) && x == y
  {
    var c := ChildOf(v, p[0], cs).value;
    var c1, c2 := PutPath(c, p[1..], a, cs), PutPath(c, p[1..], b, cs);
    GetAfterPut(c, p[1..], a, cs);
    GetAfterPut(c, p[1..], b, cs);
    assert c1 != c2;
    match v {
      case VArray(items) => AddedInArray(items, p[0], c1, c2, path, x, y, cs);
      case VObject(m) => AddedInObject(m, p[0], c1, c2, path, x, y, cs);
    }
  }

  lemma AddedInArray(items: seq<Value>, token: Str, c1: Value, c2: Value, path: Path, x: Value, y: Value, cs: bool)
    requires path != [] && c1 != c2 && ChildOf(VArray(items), token, cs).Some?
    requires |path| == 1 || !SameChild(VArray(items), token, path[0], cs)
    requires Apply(PutChild(VArray(items), token, c1, cs), path, Add(x), cs).Some?
    requires Apply(PutChild(VArray(items), token, c2, cs), path, Add(y), cs).Some?
    ensures Apply(PutChild(VArray(items), token, c1, cs), path, Add(x), cs) != Apply(PutChild(VArray(items), token, c2, cs), path, Add(y), cs)
  {
    var i := RfcIndex(token).value;
    var a, b := items[i := c1], items[i := c2];
    assert a[i] == c1 && b[i] == c2;
    if |path| == 1 {
      ElementsSlide(a, path[0], Add(x), i, cs);
      ElementsSlide(b, path[0], Add(y), i, cs);
    } else {
      var r, s := Apply(VArray(a), path, Add(x), cs).value, Apply(VArray(b), path, Add(y), cs).value;
      assert r.items[i] == c1 && s.items[i] == c2;
    }
  }

  lemma AddedInObject(m: map<Str, Value>, token: Str, c1: Value, c2: Value, path: Path, x: Value, y: Value, cs: bool)
    requires path != [] && c1 != c2 && ChildOf(VObject(m), token, cs).Some?
    requires |path| == 1 || !SameChild(VObject(m), token, path[0], cs)
    requires Apply(PutChild(VObject(m), token, c1, cs), path, Add(x), cs).Some?
    requires Apply(PutChild(VObject(m), token, c2, cs), path, Add(y), cs).Some?
    ensures Apply(PutChild(VObject(m), token, c1, cs), path, Add(x), cs) == Apply(PutChild(VObject(m), token, c2, cs), path, Add(y), cs)
            <==> |path| == 1 && SameChild(VObject(m), token, path[0], cs) && x == y
  {
    var a, b, f := m[Fold(token, cs) := c1], m[Fold(token, cs) := c2], Fold(token, cs);
    var r, s := Apply(VObject(a), path, Add(x), cs).value.members, Apply(VObject(b), path, Add(y), cs).value.members;
    if Fold(path[0], cs) != f {
      assert r[f] == c1 && s[f] == c2;
    } else {
      assert r[f] == x && s[f] == y;
      assert r == m[f := x] && s == m[f := y];
    }
  }

  /** So they differ after a move of the one member or of the other, unless both hold the same and the target covers the object. */
  lemma {:induction false} MovesDiffer(v: Value, p: Path, j: Str, other: Str, path: Path, x: Value, y: Value, cs: bool)
    requires ObjectAt(v, p, cs) && path != [] && Fold(j, cs) != Fold(other, cs)
    requires Fold(j, cs) in MembersAt(v, p, cs) && Fold(other, cs) in MembersAt(v, p, cs)
    requires Apply(Dropped(v, p, j, cs), path, Add(x), cs).Some? && Apply(Dropped(v, p, other, cs), path, Add(y), cs).Some?
    ensures Apply(Dropped(v, p, j, cs), path, Add(x), cs) == Apply(Dropped(v, p, other, cs), path, Add(y), cs)
            <==> Covers(v, path, p, cs) && x == y
  {
    var m := MembersAt(v, p, cs);
    var a, b := VObject(m - {Fold(j, cs)}), VObject(m - {Fold(other, cs)});
    if p == [] {
      DroppedHere(m, j, other, path, x, y, cs);
    } else {
      var c := ChildOf(v, p[0], cs).value;
      CoversStep(v, path, p, cs);
      StepsToChild(v, p[0], path[0], cs);
      if |path| == 1 || !SameChild(v, p[0], path[0], cs) {
        assert Fold(j, cs) in b.members && Fold(j, cs) !in a.members;
        AddedBesides(v, p, a, b, path, x, y, cs);
      } else {
        MovesDiffer(c, p[1..], j, other, path[1..], x, y, cs);
        assert ChildOf(PutChild(v, p[0], Dropped(c, p[1..], j, cs), cs), p[0], cs) == Some(Dropped(c, p[1..], j, cs));
        PutsApart(v, p[0], path[0], Dropped(c, p[1..], j, cs), Dropped(c, p[1..], other, cs), path[1..], x, y, cs);
      }
    }
  }

  /** An addition inside a child that has been put there. */
  lemma PutsApart(v: Value, a: Str, b: Str, c1: Value, c2: Value, rest: Path, x: Value, y: Value, cs: bool)
    requires ChildOf(v, a, cs).Some? && SameChild(v, a, b, cs) && rest != []
    requires Apply(c1, rest, Add(x), cs).Some? && Apply(c2, rest, Add(y), cs).Some?
    ensures Apply(PutChild(v, a, c1, cs), [b] + rest, Add(x), cs) == Apply(PutChild(v, a, c2, cs), [b] + rest, Add(y), cs)
            <==> Apply(c1, rest, Add(x), cs) == Apply(c2, rest, Add(y), cs)
  {
    ChildAfterPut(v, a, Apply(c1, rest, Add(x), cs).value, cs);
    ChildAfterPut(v, a, Apply(c2, rest, Add(y), cs).value, cs);
    AddInPut(v, a, b, c1, rest, x, cs);
    AddInPut(v, a, b, c2, rest, y, cs);
  }

  lemma AddInPut(v: Value, a: Str, b: Str, c: Value, rest: Path, x: Value, cs: bool)
    requires ChildOf(v, a, cs).Some? && SameChild(v, a, b, cs) && rest != [] && Apply(c, rest, Add(x), cs).Some?
    ensures Apply(PutChild(v, a, c, cs), [b] + rest, Add(x), cs) == Some(PutChild(v, a, Apply(c, rest, Add(x), cs).value, cs))
  {
    hide Fold, RfcIndex;
    StepsToChild(v, a, b, cs);
    assert ([b] + rest)[1..] == rest;
    var w, r := PutChild(v, a, c, cs), Apply(c, rest, Add(x), cs).value;
    ChildAfterPut(v, a, c, cs);
    TokenFolds(w, b, a, r, Remove, cs);
    assert Apply(w, [b] + rest, Add(x), cs) == Some(PutChild(w, b, r, cs));
  }

  /** There is something at `from`, and the target is not inside it. */
  predicate Goes(v: Value, from: Path, path: Path, cs: bool) {
    Get(v, from, cs).Some? && !IntoItself(from, path, cs)
  }

  /**
   * Whether moving the member `other` comes to what the RFC prescribes for moving `j`: the target is
   * not a legal one; or neither can go there; or both can, hold the same, and the object that they
   * are taken from is in the member that the target replaces.
   */
  predicate MovesAlike(v: Value, from: Path, j: Str, other: Str, path: Path, cs: bool)
    requires path != []
  {
    || !AddLegal(v, path, cs)
    || (!Goes(v, from + [j], path, cs) && !Goes(v, from + [other], path, cs))
    || (&& Goes(v, from + [j], path, cs) && Goes(v, from + [other], path, cs)
        && Get(v, from + [j], cs) == Get(v, from + [other], cs) && Covers(v, path, from, cs))
  }

  /** What removing a member and adding it elsewhere comes to. */
  lemma MoveGoes(v: Value, from: Path, j: Str, path: Path, cs: bool)
    requires ObjectAt(v, from, cs) && path != []
    ensures var r, m := RemoveThenAdd(v, from + [j], path, cs), MembersAt(v, from, cs);
            && (r.Some? <==> AddLegal(v, path, cs) && Goes(v, from + [j], path, cs))
            && (r.Some? ==> Fold(j, cs) in m && Get(v, from + [j], cs) == Some(m[Fold(j, cs)])
                            && r == Apply(Dropped(v, from, j, cs), path, Add(m[Fold(j, cs)]), cs))
  {
    hide Apply, Get, Dropped, IntoItself;
    RemoveDrops(v, from, j, cs);
    if Fold(j, cs) in MembersAt(v, from, cs) { LegalAfterDrop(v, from, j, path, MembersAt(v, from, cs)[Fold(j, cs)], cs); }
  }

  /** move: the exact condition under which it makes no difference which of two members is removed. */
  lemma MovesAgree(v: Value, from: Path, j: Str, other: Str, path: Path, cs: bool)
    requires ObjectAt(v, from, cs) && path != [] && Fold(j, cs) != Fold(other, cs)
    ensures RemoveThenAdd(v, from + [other], path, cs) == Move(v, from + [j], path, cs) <==> MovesAlike(v, from, j, other, path, cs)
  {
    hide Apply, Get, Dropped, IntoItself, RemoveThenAdd, Covers;
    MoveGoes(v, from, j, path, cs);
    MoveGoes(v, from, other, path, cs);
    var m := MembersAt(v, from, cs);
    if RemoveThenAdd(v, from + [j], path, cs).Some? && RemoveThenAdd(v, from + [other], path, cs).Some? {
      MovesDiffer(v, from, j, other, path, m[Fold(j, cs)], m[Fold(other, cs)], cs);
    }
  }

  // ---- move, when the value is added under another name as well ----

  /** What is inside a value is smaller. */
  lemma {:induction false} Inside(v: Value, p: Path, cs: bool)
    requires p != [] && Get(v, p, cs).Some?
    ensures Get(v, p, cs).value < v
  {
    var c := ChildOf(v, p[0], cs).value;
    assert c < v by {
      match v {
        case VArray(items) => assert c in items;
        case VObject(m) =>
      }
    }
    if |p| > 1 { Inside(c, p[1..], cs); }
  }

  /** Dropping a member changes no kind of value outside it. */
  lemma {:induction false} KindAfterDrop(v: Value, p: Path, j: Str, q: Path, k: Str, cs: bool)
    requires ObjectAt(v, p, cs) && !IntoItself(p + [j], q + [k], cs)
    ensures var w := Dropped(v, p, j, cs);
            && (Get(w, q, cs).Some? <==> Get(v, q, cs).Some?)
            && (ObjectAt(w, q, cs) <==> ObjectAt(v, q, cs))
  {
    IntoStep(p + [j], q + [k], cs);
    if q != [] {
      assert (q + [k])[1..] == q[1..] + [k];
      if p == [] {
        assert (p + [j])[1..] == [];
      } else {
        hide IntoItself;
        assert (p + [j])[1..] == p[1..] + [j];
        StepsToChild(v, p[0], q[0], cs);
        if SameChild(v, p[0], q[0], cs) { KindAfterDrop(ChildOf(v, p[0], cs).value, p[1..], j, q[1..], k, cs); }
      }
    }
  }

  /** Where there is no array, a value can be added exactly if there is an object. */
  lemma LegalAtObject(v: Value, q: Path, k: Str, x: Value, cs: bool)
    requires Get(v, q, cs).Some? ==> !Get(v, q, cs).value.VArray?
    ensures Apply(v, q + [k], Add(x), cs).Some? <==> ObjectAt(v, q, cs)
  {
    if Get(v, q, cs).None? { NoParent(v, q, k, x, cs); } else { ApplyUnder(v, q, [k], Add(x), cs); }
  }

  lemma {:induction false} NoParent(v: Value, q: Path, k: Str, x: Value, cs: bool)
    requires Get(v, q, cs).None?
    ensures Apply(v, q + [k], Add(x), cs).None?
  {
    assert (q + [k])[1..] == q[1..] + [k];
    if ChildOf(v, q[0], cs).Some? { NoParent(ChildOf(v, q[0], cs).value, q[1..], k, x, cs); }
  }

  /** In the object itself: nothing differs exactly if either member is put back where it was. */
  lemma RenamedHere<K, V>(m: map<K, V>, j: K, other: K, k: K, k': K)
    requires j in m && other in m && j != other
    ensures (m - {j})[k := m[j]] == (m - {other})[k' := m[other]] <==> k == j && k' == other
  {
    var a, b := (m - {j})[k := m[j]], (m - {other})[k' := m[other]];
    assert k == j ==> a == m;
    assert k' == other ==> b == m;
    assert k != j ==> j !in a;
    assert k' != other ==> other !in b;
    assert j in b || k' == j;
    assert other in a || k == other;
  }

  /** In an object that holds it: what is added is smaller than what stays around it. */
  lemma RenamedAbove(m: map<Str, Value>, a: Str, c1: Value, c2: Value, k: Str, k': Str, x: Value, y: Value)
    requires k != k' && c1 != c2 && x < c2 && y < c1
    ensures m[a := c1][k := x] != m[a := c2][k' := y]
  {
    var r, s := m[a := c1][k := x], m[a := c2][k' := y];
    assert r[a] == if k == a then x else c1;
    assert s[a] == if k' == a then y else c2;
  }

  lemma OthersInside(v: Value, p: Path, j: Str, other: Str, cs: bool)
    requires ObjectAt(v, p, cs) && Fold(j, cs) != Fold(other, cs) && Fold(other, cs) in MembersAt(v, p, cs)
    ensures MembersAt(v, p, cs)[Fold(other, cs)] < Dropped(v, p, j, cs)
  {
    var w := Dropped(v, p, j, cs);
    GetAfterPut(v, p, VObject(MembersAt(v, p, cs) - {Fold(j, cs)}), cs);
    GetConcat(w, p, [other], cs);
    assert [other][1..] == [];
    Inside(w, p + [other], cs);
  }

  lemma DroppedApart(v: Value, p: Path, j: Str, other: Str, cs: bool)
    requires ObjectAt(v, p, cs) && Fold(j, cs) != Fold(other, cs) && Fold(j, cs) in MembersAt(v, p, cs)
    ensures Dropped(v, p, j, cs) != Dropped(v, p, other, cs)
  {
    var m := MembersAt(v, p, cs);
    assert Fold(j, cs) in m - {Fold(other, cs)} && Fold(j, cs) !in m - {Fold(j, cs)};
    PutsAgree(v, p, VObject(m - {Fold(j, cs)}), VObject(m - {Fold(other, cs)}), cs);
  }

  /** An addition further down leaves the other children. */
  lemma ChildStays(v: Value, a: Str, path: Path, x: Value, cs: bool)
    requires ChildOf(v, a, cs).Some? && |path| > 1 && !SameChild(v, a, path[0], cs) && Apply(v, path, Add(x), cs).Some?
    ensures ChildOf(Apply(v, path, Add(x), cs).value, a, cs) == ChildOf(v, a, cs)
  {
  }

  /** The members `j` and `other` of an object, each removed and added again under a name of its own. */
  lemma {:induction false} RenamesDiffer(v: Value, p: Path, j: Str, other: Str, q: Path, k: Str, k': Str, cs: bool)
    requires ObjectAt(v, p, cs) && Fold(j, cs) != Fold(other, cs) && Fold(k, cs) != Fold(k', cs)
    requires Fold(j, cs) in MembersAt(v, p, cs) && Fold(other, cs) in MembersAt(v, p, cs)
    requires ObjectAt(Dropped(v, p, j, cs), q, cs) && ObjectAt(Dropped(v, p, other, cs), q, cs)
    ensures var m := MembersAt(v, p, cs);
            Apply(Dropped(v, p, j, cs), q + [k], Add(m[Fold(j, cs)]), cs) == Apply(Dropped(v, p, other, cs), q + [k'], Add(m[Fold(other, cs)]), cs)
            <==> SameTokens(q, p, cs) && Fold(k, cs) == Fold(j, cs) && Fold(k', cs) == Fold(other, cs)
    decreases |p|, 1
  {
    var m, d1, d2 := MembersAt(v, p, cs), Dropped(v, p, j, cs), Dropped(v, p, other, cs);
    var x, y := m[Fold(j, cs)], m[Fold(other, cs)];
    AddPuts(d1, q, k, x, cs);
    AddPuts(d2, q, k', y, cs);
    if q == [] {
      if p == [] {
        RenamedHere(m, Fold(j, cs), Fold(other, cs), Fold(k, cs), Fold(k', cs));
      } else {
        var c := ChildOf(v, p[0], cs).value;
        DroppedApart(c, p[1..], j, other, cs);
        OthersInside(c, p[1..], j, other, cs);
        OthersInside(c, p[1..], other, j, cs);
        RenamedAbove(v.members, Fold(p[0], cs), Dropped(c, p[1..], j, cs), Dropped(c, p[1..], other, cs), Fold(k, cs), Fold(k', cs), x, y);
      }
    } else if p == [] {
      RenamesBelow(m, j, other, q + [k], q + [k'], x, y, cs);
    } else {
      RenamesStep(v, p, j, other, q, k, k', cs);
    }
  }

  lemma RenamesBelow(m: map<Str, Value>, j: Str, other: Str, path: Path, path': Path, x: Value, y: Value, cs: bool)
    requires |path| > 1 && |path'| > 1 && path[0] == path'[0] && Fold(j, cs) in m && Fold(other, cs) in m && Fold(other, cs) != Fold(j, cs)
    requires Apply(VObject(m - {Fold(j, cs)}), path, Add(x), cs).Some?
    ensures Apply(VObject(m - {Fold(j, cs)}), path, Add(x), cs) != Apply(VObject(m - {Fold(other, cs)}), path', Add(y), cs)
  {
    var a, b := VObject(m - {Fold(j, cs)}), VObject(m - {Fold(other, cs)});
    KeysAfterAdd(a, path, x, cs);
    assert Fold(path[0], cs) in a.members;
    if Apply(b, path', Add(y), cs).Some? {
      KeysAfterAdd(b, path', y, cs);
      assert Fold(j, cs) in b.members && Fold(j, cs) !in a.members;
    }
  }

  lemma RenamesStep(v: Value, p: Path, j: Str, other: Str, q: Path, k: Str, k': Str, cs: bool)
    requires p != [] && q != []
    requires ObjectAt(v, p, cs) && Fold(j, cs) != Fold(other, cs) && Fold(k, cs) != Fold(k', cs)
    requires Fold(j, cs) in MembersAt(v, p, cs) && Fold(other, cs) in MembersAt(v, p, cs)
    requires ObjectAt(Dropped(v, p, j, cs), q, cs) && ObjectAt(Dropped(v, p, other, cs), q, cs)
    ensures var m := MembersAt(v, p, cs);
            Apply(Dropped(v, p, j, cs), q + [k], Add(m[Fold(j, cs)]), cs) == Apply(Dropped(v, p, other, cs), q + [k'], Add(m[Fold(other, cs)]), cs)
            <==> SameTokens(q, p, cs) && Fold(k, cs) == Fold(j, cs) && Fold(k', cs) == Fold(other, cs)
    decreases |p|, 0
  {
    hide Dropped, SameTokens;
    var m := MembersAt(v, p, cs);
    var c, x, y := ChildOf(v, p[0], cs).value, m[Fold(j, cs)], m[Fold(other, cs)];
    var c1, c2 := Dropped(c, p[1..], j, cs), Dropped(c, p[1..], other, cs);
    DropStep(v, p, j, cs);
    DropStep(v, p, other, cs);
    StepsToChild(v, p[0], q[0], cs);
    SameTokensStep(q, p, cs);
    assert q + [k] == [q[0]] + (q[1..] + [k]) && q + [k'] == [q[0]] + (q[1..] + [k']);
    if SameChild(v, p[0], q[0], cs) {
      RenamesDiffer(c, p[1..], j, other, q[1..], k, k', cs);
      AddPuts(c1, q[1..], k, x, cs);
      AddPuts(c2, q[1..], k', y, cs);
      AddInPut(v, p[0], q[0], c1, q[1..] + [k], x, cs);
      AddInPut(v, p[0], q[0], c2, q[1..] + [k'], y, cs);
      ChildAfterPut(v, p[0], Apply(c1, q[1..] + [k], Add(x), cs).value, cs);
      ChildAfterPut(v, p[0], Apply(c2, q[1..] + [k'], Add(y), cs).value, cs);
    } else {
      DroppedApart(c, p[1..], j, other, cs);
      AddPuts(PutChild(v, p[0], c1, cs), q, k, x, cs);
      AddPuts(PutChild(v, p[0], c2, cs), q, k', y, cs);
      ChildAfterPut(v, p[0], c1, cs);
      ChildAfterPut(v, p[0], c2, cs);
      ChildStays(PutChild(v, p[0], c1, cs), p[0], q + [k], x, cs);
      ChildStays(PutChild(v, p[0], c2, cs), p[0], q + [k'], y, cs);
    }
  }

  lemma DropStep(v: Value, p: Path, j: Str, cs: bool)
    requires p != [] && ObjectAt(v, p, cs)
    ensures ObjectAt(ChildOf(v, p[0], cs).value, p[1..], cs)
    ensures MembersAt(v, p, cs) == MembersAt(ChildOf(v, p[0], cs).value, p[1..], cs)
    ensures Dropped(v, p, j, cs) == PutChild(v, p[0], Dropped(ChildOf(v, p[0], cs).value, p[1..], j, cs), cs)
  {
  }

  /** Only the tokens before the last one say whether a location is inside another. */
  lemma IntoAnyName(from: Path, q: Path, k: Str, k': Str, cs: bool)
    ensures IntoItself(from, q + [k], cs) <==> IntoItself(from, q + [k'], cs)
  {
    if |from| <= |q| { assert (q + [k])[..|from|] == q[..|from|] == (q + [k'])[..|from|]; }
  }

  /**
   * Whether moving `other` to the name `other'` comes to what the RFC prescribes for moving `j` to `k`
   * in the same place: the target is not a legal one; or neither can go there; or both stay where they are.
   */
  predicate RenamesAlike(v: Value, from: Path, j: Str, other: Str, q: Path, k: Str, k': Str, cs: bool) {
    || !AddLegal(v, q + [k], cs)
    || (!Goes(v, from + [j], q + [k], cs) && !Goes(v, from + [other], q + [k], cs))
    || (&& Goes(v, from + [j], q + [k], cs) && Goes(v, from + [other], q + [k], cs)
        && SameTokens(q, from, cs) && Fold(k, cs) == Fold(j, cs) && Fold(k', cs) == Fold(other, cs))
  }

  lemma RenamesAgree(v: Value, from: Path, j: Str, other: Str, q: Path, k: Str, k': Str, cs: bool)
    requires ObjectAt(v, from, cs) && Fold(j, cs) != Fold(other, cs) && Fold(k, cs) != Fold(k', cs)
    requires Fold(other, cs) in MembersAt(v, from, cs) && Get(Dropped(v, from, other, cs), q, cs).Some? ==>
               !Get(Dropped(v, from, other, cs), q, cs).value.VArray?
    ensures RemoveThenAdd(v, from + [other], q + [k'], cs) == Move(v, from + [j], q + [k], cs) <==> RenamesAlike(v, from, j, other, q, k, k', cs)
  {
    hide Apply, Get, Dropped, IntoItself, RemoveThenAdd, SameTokens;
    var m, to, to' := MembersAt(v, from, cs), q + [k], q + [k'];
    MoveGoes(v, from, j, to, cs);
    MoveGoes(v, from, other, to', cs);
    IntoAnyName(from + [other], q, k, k', cs);
    RemoveDrops(v, from, other, cs);
    if Fold(other, cs) in m {
      var d, y := Dropped(v, from, other, cs), m[Fold(other, cs)];
      LegalAtObject(d, q, k, y, cs);
      LegalAtObject(d, q, k', y, cs);
      LegalAfterDrop(v, from, other, to, y, cs);
      LegalAfterDrop(v, from, other, to', y, cs);
      if RemoveThenAdd(v, from + [j], to, cs).Some? && RemoveThenAdd(v, from + [other], to', cs).Some? {
        KindAfterDrop(v, from, j, q, k, cs);
        KindAfterDrop(v, from, other, q, k, cs);
        RenamesDiffer(v, from, j, other, q, k, k', cs);
      }
    }
  }
}

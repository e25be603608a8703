/** Generated merge patches: what they mean, and exactly when merging one gives back the new tree. */
module MergeDiff {
  import opened Bytes
  import opened Json
  import opened Merging
  import opened MergeMeaning

  // ---- on values ----

  /** The merge patch from `a` to `b`; None when both are the same object. */
  function Diff(a: Value, b: Value): Option<Value>
    decreases a
  {
    match (a, b)
    case (VObject(ma), VObject(mb)) =>
      var pm := map k | k in ma.Keys + mb.Keys && !(k in ma && k in mb && (ma[k] == mb[k] || Diff(ma[k], mb[k]).None?)) ::
        if k !in mb then VNull else if k !in ma then mb[k] else Diff(ma[k], mb[k]).value;
      if pm == map[] then None else Some(VObject(pm))
    case (_, _) => Some(b)
  }

  /** The members of that patch. */
  function DiffMembers(ma: map<Str, Value>, mb: map<Str, Value>): map<Str, Value> {
    match Diff(VObject(ma), VObject(mb))
    case Some(v) => v.members
    case None => map[]
  }

  /** There is no patch exactly between equal objects. */
  lemma {:induction false} NoDiff(a: Value, b: Value)
    ensures Diff(a, b).None? <==> a.VObject? && a == b
    decreases a
  {
    if a.VObject? && b.VObject? {
      var ma, mb := a.members, b.members;
      forall k | k in ma && k in mb
        ensures Diff(ma[k], mb[k]).None? ==> ma[k] == mb[k]
      {
        NoDiff(ma[k], mb[k]);
      }
      DiffAt(ma, mb);
      if Diff(a, b).None? {
        forall k
          ensures k in ma <==> k in mb
          ensures k in ma ==> ma[k] == mb[k]
        {
          assert k !in DiffMembers(ma, mb);
        }
        assert ma == mb;
      }
      if a == b {
        assert DiffMembers(ma, mb) == map[];
      }
    }
  }

  lemma DiffAt(ma: map<Str, Value>, mb: map<Str, Value>)
    ensures forall k :: k in DiffMembers(ma, mb) <==>
              (k in ma || k in mb) && !(k in ma && k in mb && (ma[k] == mb[k] || Diff(ma[k], mb[k]).None?))
    ensures forall k | k in DiffMembers(ma, mb) ::
              DiffMembers(ma, mb)[k] == if k !in mb then VNull else if k !in ma then mb[k] else Diff(ma[k], mb[k]).value
    ensures Diff(VObject(ma), VObject(mb)).None? <==> DiffMembers(ma, mb) == map[]
  {
  }

  /** No member is null, here or in objects below. */
  predicate NullFree(v: Value)
    decreases v
  {
    v.VObject? ==> forall k | k in v.members :: v.members[k] != VNull && NullFree(v.members[k])
  }

  /**
   * What a merge patch can express: where the new object differs from the old one, it has no null
   * members, and none in objects that the old one lacks.
   */
  predicate Recoverable(a: Value, b: Value)
    decreases b
  {
    match b
    case VObject(mb) =>
      if a.VObject? then
        forall k | k in mb ::
          if k in a.members then a.members[k] == mb[k] || (mb[k] != VNull && Recoverable(a.members[k], mb[k]))
          else mb[k] != VNull && NullFree(mb[k])
      else NullFree(b)
    case _ => true
  }

  /** Merging into nothing gives the patch itself exactly when it holds no null. */
  lemma {:induction false} MergeFresh(t: Option<Value>, p: Value)
    requires t.Some? ==> !t.value.VObject?
    ensures RfcMerge(t, p) == p <==> NullFree(p)
    decreases p
  {
    if p.VObject? {
      var pm, r := p.members, RfcMerge(t, p).members;
      forall k | k in pm
        ensures RfcMerge(None, pm[k]) == pm[k] <==> NullFree(pm[k])
      {
        MergeFresh(None, pm[k]);
      }
      assert forall k :: k in r <==> k in pm && pm[k] != VNull;
      assert forall k | k in r :: r[k] == RfcMerge(None, pm[k]);
      if NullFree(p) { assert r == pm; }
    }
  }

  /** Merging the patch from `a` to `b` into `a` gives `b` exactly when the difference is expressible. */
  lemma {:induction false} MergeDiffExact(a: Value, b: Value)
    requires Diff(a, b).Some?
    ensures RfcMerge(Some(a), Diff(a, b).value) == b <==> Recoverable(a, b)
    decreases b, 1
  {
    if !a.VObject? {
      MergeFresh(Some(a), b);
    } else if b.VObject? {
      var ma, mb := a.members, b.members;
      var pm := DiffMembers(ma, mb);
      var r := RfcMembers(ma, pm);
      DiffAt(ma, mb);
      RfcMembersAt(ma, pm);
      forall k
        ensures (k in r <==> k in mb) && (k in r ==> r[k] == mb[k]) <==> Expressible(ma, mb, k)
      {
        MergeDiffAt(ma, b, k);
      }
      if Recoverable(a, b) {
        assert forall k :: Expressible(ma, mb, k);
        assert r == mb;
      }
    }
  }

  predicate Expressible(ma: map<Str, Value>, mb: map<Str, Value>, k: Str) {
    k in mb ==>
      if k in ma then ma[k] == mb[k] || (mb[k] != VNull && Recoverable(ma[k], mb[k]))
      else mb[k] != VNull && NullFree(mb[k])
  }

  lemma {:induction false} MergeDiffAt(ma: map<Str, Value>, b: Value, k: Str)
    requires b.VObject?
    ensures var mb := b.members;
            var r := RfcMembers(ma, DiffMembers(ma, mb));
            (k in r <==> k in mb) && (k in r ==> r[k] == mb[k]) <==> Expressible(ma, mb, k)
    decreases b, 0
  {
    hide RfcMembers, DiffMembers;
    var mb := b.members;
    var pm := DiffMembers(ma, mb);
    DiffAt(ma, mb);
    RfcMembersAt(ma, pm);
    if k in mb {
      if k !in ma {
        MergeFresh(None, mb[k]);
      } else if ma[k] != mb[k] {
        NoDiff(ma[k], mb[k]);
        if mb[k] != VNull { MergeDiffExact(ma[k], mb[k]); }
      }
    }
  }
}

/** What a run of header edits means, name by name. */
module HeaderLaws {
  import opened Prelude
  import opened GoStrings
  import opened HttpHeader

  // ---- deletes are filters ------------------------------------------------------------

  /** Two filters in a row keep what the operations of both leave alone. */
  lemma {:induction false} SurvivorsCompose(ds: seq<DeleteOp>, es: seq<DeleteOp>, k: string, vals: seq<string>)
    ensures Survivors(es, k, Survivors(ds, k, vals)) == Survivors(ds + es, k, vals)
  {
    if vals != [] {
      SurvivorsCompose(ds, es, k, vals[1..]);
      KilledByEither(ds, es, k, vals[0]);
    }
  }

  lemma KilledByEither(ds: seq<DeleteOp>, es: seq<DeleteOp>, k: string, v: string)
    ensures (exists i :: 0 <= i < |ds + es| && Kills((ds + es)[i], k, v)) <==>
      (exists i :: 0 <= i < |ds| && Kills(ds[i], k, v)) || (exists i :: 0 <= i < |es| && Kills(es[i], k, v))
  {
    if i :| 0 <= i < |es| && Kills(es[i], k, v) {
      assert Kills((ds + es)[|ds| + i], k, v);
    }
    if i :| 0 <= i < |ds| && Kills(ds[i], k, v) {
      assert Kills((ds + es)[i], k, v);
    }
  }

  lemma {:induction false} SameKills(ds: seq<DeleteOp>, es: seq<DeleteOp>, k: string, vals: seq<string>)
    requires forall d :: d in ds <==> d in es
    ensures Survivors(ds, k, vals) == Survivors(es, k, vals)
  {
    if vals != [] {
      SameKills(ds, es, k, vals[1..]);
      assert forall i | 0 <= i < |ds| :: ds[i] in es;
      assert forall i | 0 <= i < |es| :: es[i] in ds;
    }
  }

  /** Every value goes when a delete without an expression targets the name, and none when no operation does. */
  lemma {:induction false} SurvivorsOfOne(d: DeleteOp, k: string, vals: seq<string>)
    ensures !Targets(d, k) ==> Survivors([d], k, vals) == vals
    ensures Targets(d, k) && d.ByName? && d.valueRegex.None? ==> Survivors([d], k, vals) == []
  {
    if vals != [] {
      SurvivorsOfOne(d, k, vals[1..]);
      assert Kills([d][0], k, vals[0]) == Kills(d, k, vals[0]);
    }
  }

  lemma ValuesAfterDelete(h: Fields, d: DeleteOp, k: string)
    requires Canonical(k) == k
    ensures Values(AfterDelete(h, d), k) == Survivors([d], k, Values(h, k))
  {
    AtAfterDelete(h, d, k);
    SurvivorsOfOne(d, k, Values(h, k));
  }

  lemma {:induction false} NoneKilled(k: string, vals: seq<string>)
    ensures Survivors([], k, vals) == vals
  {
    if vals != [] {
      NoneKilled(k, vals[1..]);
    }
  }

  lemma {:induction false} ValuesAfterDeletes(h: Fields, ds: seq<DeleteOp>, k: string)
    requires Canonical(k) == k
    ensures Values(AfterDeletes(h, ds), k) == Survivors(ds, k, Values(h, k))
  {
    if ds == [] {
      NoneKilled(k, Values(h, k));
    } else {
      var init, d := ds[..|ds| - 1], ds[|ds| - 1];
      ValuesAfterDeletes(h, init, k);
      ValuesAfterDelete(AfterDeletes(h, init), d, k);
      SurvivorsCompose(init, [d], k, Values(h, k));
      assert init + [d] == ds;
    }
  }

  // ---- sets are a fold ------------------------------------------------------------------

  /** The values of k after the set operations that name it: replace starts over, append adds. */
  function Edited(ss: seq<SetOp>, k: string, vals: seq<string>): seq<string> {
    if ss == [] then vals
    else if Canonical(ss[0].name) != k then Edited(ss[1..], k, vals)
    else Edited(ss[1..], k, if ss[0].mode.Replace? then [ss[0].value] else vals + [ss[0].value])
  }

  lemma {:induction false} EditedLast(ss: seq<SetOp>, s: SetOp, k: string, vals: seq<string>)
    ensures Edited(ss + [s], k, vals) == Edited([s], k, Edited(ss, k, vals))
  {
    if ss == [] {
      assert ss + [s] == [s];
    } else {
      assert (ss + [s])[1..] == ss[1..] + [s];
      var next :=
        if Canonical(ss[0].name) != k then vals
        else if ss[0].mode.Replace? then [ss[0].value]
        else vals + [ss[0].value];
      EditedLast(ss[1..], s, k, next);
    }
  }

  lemma ValuesAfterSet(h: Fields, s: SetOp, k: string)
    requires Canonical(k) == k
    ensures Values(AfterSet(h, s), k) == Edited([s], k, Values(h, k))
  {
    AtAfterSet(h, s, k);
  }

  lemma {:induction false} ValuesAfterSets(h: Fields, ss: seq<SetOp>, k: string)
    requires Canonical(k) == k
    ensures Values(AfterSets(h, ss), k) == Edited(ss, k, Values(h, k))
  {
    hide Values, AfterSet, Canonical;
    if ss != [] {
      var init, s := ss[..|ss| - 1], ss[|ss| - 1];
      ValuesAfterSets(h, init, k);
      ValuesAfterSet(AfterSets(h, init), s, k);
      EditedLast(init, s, k, Values(h, k));
      assert init + [s] == ss;
    }
  }

  // ---- the main results -------------------------------------------------------------------

  /**
   The normal form of Ops.Apply: every name ends with its own values that no
   delete operation kills, in order, then edited by the set operations naming it.
  */
  lemma NormalForm(h: Fields, ops: Ops, name: string)
    ensures var k := Canonical(name);
      Values(Applied(h, ops), name) == Edited(ops.sets, k, Survivors(ops.deletes, k, Values(h, name)))
  {
    var k := Canonical(name);
    CanonicalTwice(name);
    ValuesAfterDeletes(h, ops.deletes, k);
    ValuesAfterSets(AfterDeletes(h, ops.deletes), ops.sets, k);
  }

  lemma {:induction false} DeletesKeepOddKeys(h: Fields, ds: seq<DeleteOp>, k: string)
    requires Canonical(k) != k
    ensures At(AfterDeletes(h, ds), k) == At(h, k)
  {
    if ds != [] {
      var init, d := ds[..|ds| - 1], ds[|ds| - 1];
      DeletesKeepOddKeys(h, init, k);
      AtAfterDelete(AfterDeletes(h, init), d, k);
      CanonicalTwice(if d.ByName? then d.name else k);
    }
  }

  lemma {:induction false} SetsKeepOddKeys(h: Fields, ss: seq<SetOp>, k: string)
    requires Canonical(k) != k
    ensures At(AfterSets(h, ss), k) == At(h, k)
  {
    if ss != [] {
      var init, s := ss[..|ss| - 1], ss[|ss| - 1];
      SetsKeepOddKeys(h, init, k);
      AtAfterSet(AfterSets(h, init), s, k);
      CanonicalTwice(s.name);
    }
  }

  /** A key that is not in canonical form is out of reach of every operation. */
  lemma OddKeysStay(h: Fields, ops: Ops, k: string)
    requires Canonical(k) != k
    ensures At(Applied(h, ops), k) == At(h, k)
  {
    DeletesKeepOddKeys(h, ops.deletes, k);
    SetsKeepOddKeys(AfterDeletes(h, ops.deletes), ops.sets, k);
  }

  /** Keys in canonical form, none of them empty: what net/http's readers build. */
  ghost predicate Clean(h: Fields) {
    forall k :: k in h ==> Canonical(k) == k && h[k] != []
  }

  lemma {:induction false} DeletesKeepClean(h: Fields, ds: seq<DeleteOp>)
    requires Clean(h)
    ensures Clean(AfterDeletes(h, ds))
  {
    if ds != [] {
      DeletesKeepClean(h, ds[..|ds| - 1]);
    }
  }

  lemma {:induction false} SetsKeepClean(h: Fields, ss: seq<SetOp>)
    requires Clean(h)
    ensures Clean(AfterSets(h, ss))
  {
    if ss != [] {
      SetsKeepClean(h, ss[..|ss| - 1]);
      CanonicalTwice(ss[|ss| - 1].name);
    }
  }

  lemma ApplyKeepsClean(h: Fields, ops: Ops)
    requires Clean(h)
    ensures Clean(Applied(h, ops))
  {
    DeletesKeepClean(h, ops.deletes);
    SetsKeepClean(AfterDeletes(h, ops.deletes), ops.sets);
  }

  /** A clean map is known from the values it gives each name. */
  lemma CleanDetermined(g: Fields, h: Fields)
    requires Clean(g) && Clean(h) && forall k | Canonical(k) == k :: Values(g, k) == Values(h, k)
    ensures g == h
  {
    forall k ensures At(g, k) == At(h, k) {
      if Canonical(k) == k {
        assert Values(g, k) == Values(h, k);
      }
    }
    SameFields(g, h);
  }

  /** On a clean map the delete operations may come in any order and any number of times. */
  lemma DeleteOrderIsIrrelevant(h: Fields, ds: seq<DeleteOp>, es: seq<DeleteOp>)
    requires Clean(h) && forall d :: d in ds <==> d in es
    ensures AfterDeletes(h, ds) == AfterDeletes(h, es)
  {
    DeletesKeepClean(h, ds);
    DeletesKeepClean(h, es);
    forall k | Canonical(k) == k ensures Values(AfterDeletes(h, ds), k) == Values(AfterDeletes(h, es), k) {
      ValuesAfterDeletes(h, ds, k);
      ValuesAfterDeletes(h, es, k);
      SameKills(ds, es, k, Values(h, k));
    }
    CleanDetermined(AfterDeletes(h, ds), AfterDeletes(h, es));
  }

  /** On any map, two deletes commute and each is idempotent. */
  lemma DeletesCommute(h: Fields, d: DeleteOp, e: DeleteOp)
    ensures AfterDelete(AfterDelete(h, d), e) == AfterDelete(AfterDelete(h, e), d)
    ensures AfterDelete(AfterDelete(h, d), d) == AfterDelete(h, d)
  {
    forall k
      ensures At(AfterDelete(AfterDelete(h, d), e), k) == At(AfterDelete(AfterDelete(h, e), d), k)
      ensures At(AfterDelete(AfterDelete(h, d), d), k) == At(AfterDelete(h, d), k)
    {
      AtAfterDelete(h, d, k);
      AtAfterDelete(h, e, k);
      AtAfterDelete(AfterDelete(h, d), e, k);
      AtAfterDelete(AfterDelete(h, e), d, k);
      AtAfterDelete(AfterDelete(h, d), d, k);
      DeleteAtTwice(d, k, At(h, k));
      DeleteAtCommutes(d, e, k, At(h, k));
    }
    SameFields(AfterDelete(AfterDelete(h, d), e), AfterDelete(AfterDelete(h, e), d));
    SameFields(AfterDelete(AfterDelete(h, d), d), AfterDelete(h, d));
  }

  lemma DeleteAtCommutes(d: DeleteOp, e: DeleteOp, k: string, o: Option<seq<string>>)
    ensures DeleteAt(e, k, DeleteAt(d, k, o)) == DeleteAt(d, k, DeleteAt(e, k, o))
  {
    if o.Some? {
      SurvivorsCompose([d], [e], k, o.value);
      SurvivorsCompose([e], [d], k, o.value);
      SameKills([d] + [e], [e] + [d], k, o.value);
    }
  }

  // ---- which values those are ------------------------------------------------------------

  lemma {:induction false} SurvivorsInTwo(ds: seq<DeleteOp>, k: string, a: seq<string>, b: seq<string>)
    ensures Survivors(ds, k, a + b) == Survivors(ds, k, a) + Survivors(ds, k, b)
  {
    if a == [] {
      assert a + b == b;
    } else {
      assert (a + b)[1..] == a[1..] + b && (a + b)[0] == a[0];
      SurvivorsInTwo(ds, k, a[1..], b);
    }
  }

  /** The operation names k, or any name, and its expression, if it has one, finds a match in v. */
  predicate Removes(d: DeleteOp, k: string, v: string) {
    match d
    case ByName(name, valueRegex) => Canonical(name) == k && (valueRegex.Some? ==> valueRegex.value.find(v) != None)
    case AnyName(re) => re.find(v) != None
  }

  /** Of the values of a name exactly those go that an operation removes; the others keep their places. */
  lemma EachValueByItself(ds: seq<DeleteOp>, k: string, before: seq<string>, v: string, after: seq<string>)
    requires Canonical(k) == k
    ensures Survivors(ds, k, []) == []
    ensures Survivors(ds, k, before + [v] + after) ==
      Survivors(ds, k, before)
      + (if exists i :: 0 <= i < |ds| && Removes(ds[i], k, v) then [] else [v])
      + Survivors(ds, k, after)
  {
    hide Survivors, Removes;
    SurvivorsInTwo(ds, k, before + [v], after);
    SurvivorsInTwo(ds, k, before, [v]);
    OneValue(ds, k, v);
  }

  lemma OneValue(ds: seq<DeleteOp>, k: string, v: string)
    requires Canonical(k) == k
    ensures Survivors(ds, k, []) == []
    ensures Survivors(ds, k, [v]) == if exists i :: 0 <= i < |ds| && Removes(ds[i], k, v) then [] else [v]
  {
    hide Canonical, Removes, Kills;
    forall i | 0 <= i < |ds| ensures Kills(ds[i], k, v) <==> Removes(ds[i], k, v) {
      KillsMeansRemoves(ds[i], k, v);
    }
    assert [v][1..] == [];
  }

  lemma KillsMeansRemoves(d: DeleteOp, k: string, v: string)
    requires Canonical(k) == k
    ensures Kills(d, k, v) <==> Removes(d, k, v)
  {
    hide Canonical;
  }

  /** The values of the operations that name k, in order. */
  function Named(ss: seq<SetOp>, k: string): seq<string> {
    if ss == [] then []
    else (if Canonical(ss[0].name) == k then [ss[0].value] else []) + Named(ss[1..], k)
  }

  predicate Replaces(s: SetOp, k: string) {
    Canonical(s.name) == k && s.mode == Replace
  }

  /** Without a replace the values named are appended. */
  lemma {:induction false} AppendsAddUp(ss: seq<SetOp>, k: string, vals: seq<string>)
    requires forall i :: 0 <= i < |ss| ==> !Replaces(ss[i], k)
    ensures Edited(ss, k, vals) == vals + Named(ss, k)
  {
    hide Canonical;
    if ss != [] {
      assert !Replaces(ss[0], k);
      var rest := Named(ss[1..], k);
      assert vals + [ss[0].value] + rest == vals + ([ss[0].value] + rest);
      if Canonical(ss[0].name) == k {
        AppendsAddUp(ss[1..], k, vals + [ss[0].value]);
      } else {
        AppendsAddUp(ss[1..], k, vals);
      }
    }
  }

  lemma {:induction false} EditedInTwo(a: seq<SetOp>, b: seq<SetOp>, k: string, vals: seq<string>)
    ensures Edited(a + b, k, vals) == Edited(b, k, Edited(a, k, vals))
  {
    if a == [] {
      assert a + b == b;
    } else {
      assert (a + b)[1..] == a[1..] + b && (a + b)[0] == a[0];
      var next :=
        if Canonical(a[0].name) != k then vals
        else if a[0].mode.Replace? then [a[0].value]
        else vals + [a[0].value];
      EditedInTwo(a[1..], b, k, next);
    }
  }

  /** The last replace of a name starts its values over, and the appends after it follow. */
  lemma LastReplaceWins(before: seq<SetOp>, s: SetOp, after: seq<SetOp>, k: string, vals: seq<string>)
    requires Replaces(s, k) && forall i :: 0 <= i < |after| ==> !Replaces(after[i], k)
    ensures Edited(before + [s] + after, k, vals) == [s.value] + Named(after, k)
  {
    EditedInTwo(before + [s], after, k, vals);
    EditedInTwo(before, [s], k, vals);
    assert [s][1..] == [];
    AppendsAddUp(after, k, [s.value]);
  }

  /** Naming a header in another letter case edits the same header. */
  lemma NamesInAnyCase(h: Fields, a: string, b: string, re: Option<Regex>, mode: Mode, value: string)
    requires IsToken(a) && IsToken(b) && SameLetters(a, b)
    ensures AfterDelete(h, ByName(a, re)) == AfterDelete(h, ByName(b, re))
    ensures AfterSet(h, SetOp(a, mode, value)) == AfterSet(h, SetOp(b, mode, value))
  {
    hide Canonical;
    LetterCaseIsIrrelevant(a, b);
    forall k ensures At(AfterDelete(h, ByName(a, re)), k) == At(AfterDelete(h, ByName(b, re)), k) {
      AtAfterDelete(h, ByName(a, re), k);
      AtAfterDelete(h, ByName(b, re), k);
      if k in h {
        SameOperation(ByName(a, re), ByName(b, re), k, h[k]);
      }
    }
    SameFields(AfterDelete(h, ByName(a, re)), AfterDelete(h, ByName(b, re)));
  }

  lemma {:induction false} SameOperation(d: DeleteOp, e: DeleteOp, k: string, vals: seq<string>)
    requires forall v :: Kills(d, k, v) == Kills(e, k, v)
    ensures Survivors([d], k, vals) == Survivors([e], k, vals)
  {
    if vals != [] {
      SameOperation(d, e, k, vals[1..]);
      assert Kills([d][0], k, vals[0]) == Kills([e][0], k, vals[0]);
    }
  }

  // ---- one Content-Length, one name ------------------------------------------------------

  predicate NamesField(ops: Ops, k: string) {
    exists i :: 0 <= i < |ops.sets| && Canonical(ops.sets[i].name) == k
  }

  lemma {:induction false} UneditedField(ss: seq<SetOp>, k: string, vals: seq<string>)
    requires forall i :: 0 <= i < |ss| ==> Canonical(ss[i].name) != k
    ensures Edited(ss, k, vals) == vals
  {
    if ss != [] {
      UneditedField(ss[1..], k, vals);
    }
  }

  /** A single value that no set operation names stays as it is or goes. */
  lemma SingleValue(h: Fields, ops: Ops, k: string, v: string)
    requires Canonical(k) == k && !NamesField(ops, k)
    requires Values(h, k) == [] || Values(h, k) == [v]
    ensures Values(Applied(h, ops), k) == [] || Values(Applied(h, ops), k) == [v]
  {
    NormalForm(h, ops, k);
    UneditedField(ops.sets, k, Survivors(ops.deletes, k, Values(h, k)));
  }
}

/** internal/rules/headers.go over net/http's Header: the header edits of a rule. */
module HttpHeader {
  import opened Prelude
  import opened GoStrings

  type Fields = map<string, seq<string>>

  /** A compiled regular expression: where its leftmost match lies, if it matches at all. */
  datatype Regex = Regex(find: string -> Option<(nat, nat)>) {
    predicate Matches(s: string) {
      find(s).Some?
    }
  }

  // ---- http.Header --------------------------------------------------------------------

  /** What the map holds under exactly this key. */
  function At(h: Fields, k: string): Option<seq<string>> {
    if k in h then Some(h[k]) else None
  }

  function OrEmpty(o: Option<seq<string>>): seq<string> {
    if o.Some? then o.value else []
  }

  /** Header.Values. */
  function Values(h: Fields, name: string): seq<string> {
    OrEmpty(At(h, Canonical(name)))
  }

  /** Header.Get. */
  function Get(h: Fields, name: string): string {
    var vals := Values(h, name);
    if vals == [] then "" else vals[0]
  }

  /** The first of the values under the canonical name, or nothing. */
  lemma GetMeaning(h: Fields, name: string)
    ensures Canonical(name) !in h || h[Canonical(name)] == [] ==> Get(h, name) == "" && Values(h, name) == []
    ensures Canonical(name) in h && h[Canonical(name)] != [] ==>
      Get(h, name) == h[Canonical(name)][0] && Values(h, name) == h[Canonical(name)]
  {
  }

  /** Header.Set on the map. */
  function WithSet(h: Fields, name: string, value: string): Fields {
    h[Canonical(name) := [value]]
  }

  class Header {
    var m: Fields

    constructor (m: Fields)
      ensures this.m == m
    {
      this.m := m;
    }

    method Del(name: string)
      modifies this
      ensures m == old(m) - {Canonical(name)}
    {
      m := m - {Canonical(name)};
    }

    method Add(name: string, value: string)
      modifies this
      ensures m == old(m)[Canonical(name) := Values(old(m), name) + [value]]
    {
      m := m[Canonical(name) := Values(m, name) + [value]];
    }

    method Set(name: string, value: string)
      modifies this
      ensures m == WithSet(old(m), name, value)
    {
      m := m[Canonical(name) := [value]];
    }
  }

  // ---- compiled operations --------------------------------------------------------------

  /** AnyName always has an expression: compileDeleteOp refuses it without one. */
  datatype DeleteOp =
    | ByName(name: string, valueRegex: Option<Regex>)
    | AnyName(re: Regex)

  datatype Mode = Replace | Append

  datatype SetOp = SetOp(name: string, mode: Mode, value: string)

  datatype Ops = Ops(deletes: seq<DeleteOp>, sets: seq<SetOp>)

  // ---- what each operation does to one key ------------------------------------------------

  /** Whether d looks at the values under key k. */
  predicate Targets(d: DeleteOp, k: string) {
    Canonical(if d.ByName? then d.name else k) == k
  }

  /** Whether d removes value v from under key k. */
  predicate Kills(d: DeleteOp, k: string, v: string) {
    Targets(d, k) &&
    match d
    case ByName(_, None) => true
    case ByName(_, Some(re)) => re.Matches(v)
    case AnyName(re) => re.Matches(v)
  }

  /** The values of k that none of the operations removes, in order. */
  function Survivors(ds: seq<DeleteOp>, k: string, vals: seq<string>): seq<string> {
    if vals == [] then []
    else
      var rest := Survivors(ds, k, vals[1..]);
      if exists i :: 0 <= i < |ds| && Kills(ds[i], k, vals[0]) then rest else [vals[0]] + rest
  }

  /** One delete operation at one key: a key that loses its last value goes too. */
  function DeleteAt(d: DeleteOp, k: string, o: Option<seq<string>>): Option<seq<string>> {
    if o.None? || !Targets(d, k) then o
    else if d.ByName? && d.valueRegex.None? then None
    else
      var keep := Survivors([d], k, o.value);
      if keep == [] && o.value != [] then None else Some(keep)
  }

  function SetAt(s: SetOp, k: string, o: Option<seq<string>>): Option<seq<string>> {
    if Canonical(s.name) != k then o
    else if s.mode.Replace? then Some([s.value])
    else Some(OrEmpty(o) + [s.value])
  }

  // ---- what each operation does to the map ------------------------------------------------

  function AfterDelete(h: Fields, d: DeleteOp): Fields {
    map k | k in h && DeleteAt(d, k, Some(h[k])).Some? :: DeleteAt(d, k, Some(h[k])).value
  }

  function AfterSet(h: Fields, s: SetOp): Fields {
    var k := Canonical(s.name);
    h[k := SetAt(s, k, At(h, k)).value]
  }

  function AfterDeletes(h: Fields, ds: seq<DeleteOp>): Fields {
    if ds == [] then h else AfterDelete(AfterDeletes(h, ds[..|ds| - 1]), ds[|ds| - 1])
  }

  function AfterSets(h: Fields, ss: seq<SetOp>): Fields {
    if ss == [] then h else AfterSet(AfterSets(h, ss[..|ss| - 1]), ss[|ss| - 1])
  }

  /** Ops.Apply: every delete, then every set. */
  function Applied(h: Fields, ops: Ops): Fields {
    AfterSets(AfterDeletes(h, ops.deletes), ops.sets)
  }

  /** Maps that hold the same under every key are the same. */
  lemma SameFields(g: Fields, h: Fields)
    requires forall k :: At(g, k) == At(h, k)
    ensures g == h
  {
    assert forall k :: k in g <==> At(g, k).Some?;
    assert forall k :: k in h <==> At(h, k).Some?;
    assert forall k | k in g :: At(g, k).value == At(h, k).value;
  }

  lemma AtAfterDelete(h: Fields, d: DeleteOp, k: string)
    ensures At(AfterDelete(h, d), k) == DeleteAt(d, k, At(h, k))
  {
  }

  lemma AtAfterSet(h: Fields, s: SetOp, k: string)
    ensures At(AfterSet(h, s), k) == SetAt(s, k, At(h, k))
  {
  }

  // ---- the methods of headers.go -------------------------------------------------------------

  lemma SurvivorsAppend(d: DeleteOp, k: string, vals: seq<string>, v: string)
    ensures Survivors([d], k, vals + [v]) == Survivors([d], k, vals) + if Kills(d, k, v) then [] else [v]
  {
    if vals == [] {
      assert Kills([d][0], k, v) == Kills(d, k, v);
    } else {
      assert (vals + [v])[1..] == vals[1..] + [v];
      SurvivorsAppend(d, k, vals[1..], v);
    }
  }

  /** filterHeaderValues. */
  method FilterHeaderValues(h: Header, k: string, re: Regex)
    modifies h
    ensures h.m == AfterDelete(old(h.m), ByName(k, Some(re)))
  {
    ghost var d := ByName(k, Some(re));
    var vals := Values(h.m, k);
    CanonicalTwice(k);
    if |vals| == 0 {
      SameFields(h.m, AfterDelete(h.m, d));
      return;
    }
    var keep := [];
    for i := 0 to |vals|
      invariant keep == Survivors([d], Canonical(k), vals[..i])
      invariant h.m == old(h.m)
    {
      if !re.Matches(vals[i]) {
        keep := keep + [vals[i]];
      }
      SurvivorsAppend(d, Canonical(k), vals[..i], vals[i]);
      assert vals[..i + 1] == vals[..i] + [vals[i]];
    }
    assert vals[..|vals|] == vals;
    h.Del(k);
    for i := 0 to |keep|
      invariant h.m - {Canonical(k)} == old(h.m) - {Canonical(k)}
      invariant At(h.m, Canonical(k)) == if i == 0 then None else Some(keep[..i])
    {
      h.Add(k, keep[i]);
      assert keep[..i + 1] == keep[..i] + [keep[i]];
    }
    assert keep[..|keep|] == keep;
    FilteredFields(old(h.m), h.m, d, Canonical(k));
  }

  /** A map that differs from h only at the key d targets, and holds there what d leaves. */
  lemma FilteredFields(h: Fields, g: Fields, d: DeleteOp, k: string)
    requires d.ByName? && k == Canonical(d.name)
    requires g - {k} == h - {k} && At(g, k) == DeleteAt(d, k, At(h, k))
    ensures g == AfterDelete(h, d)
  {
    forall j ensures At(g, j) == At(AfterDelete(h, d), j) {
      assert At(h - {k}, j) == At(g - {k}, j);
    }
    SameFields(g, AfterDelete(h, d));
  }

  lemma {:induction false} FilterTwice(ds: seq<DeleteOp>, k: string, vals: seq<string>)
    ensures Survivors(ds, k, Survivors(ds, k, vals)) == Survivors(ds, k, vals)
  {
    if vals != [] {
      FilterTwice(ds, k, vals[1..]);
    }
  }

  lemma DeleteAtTwice(d: DeleteOp, k: string, o: Option<seq<string>>)
    ensures DeleteAt(d, k, DeleteAt(d, k, o)) == DeleteAt(d, k, o)
  {
    if o.Some? {
      FilterTwice([d], k, o.value);
    }
  }

  /** A wildcard and a delete by name agree at a canonical key of that name. */
  lemma {:induction false} SameFilter(k: string, j: string, re: Regex, vals: seq<string>)
    requires Canonical(j) == k
    ensures Canonical(k) == k && Survivors([AnyName(re)], k, vals) == Survivors([ByName(j, Some(re))], k, vals)
  {
    CanonicalTwice(j);
    if vals != [] {
      SameFilter(k, j, re, vals[1..]);
      assert Kills([AnyName(re)][0], k, vals[0]) == Kills([ByName(j, Some(re))][0], k, vals[0]);
    }
  }

  lemma WildcardStep(h: Fields, j: string, re: Regex, k: string)
    ensures At(AfterDelete(h, ByName(j, Some(re))), k) ==
      if Canonical(j) == k then DeleteAt(AnyName(re), k, At(h, k)) else At(h, k)
  {
    AtAfterDelete(h, ByName(j, Some(re)), k);
    if Canonical(j) == k && k in h {
      SameFilter(k, j, re, h[k]);
    }
  }

  /** What the wildcard delete has reached so far: every key in done, and no key beyond its effect. */
  ghost predicate Swept(was: Fields, now: Fields, d: DeleteOp, done: set<string>) {
    && (forall k :: At(now, k) == At(was, k) || At(now, k) == DeleteAt(d, k, At(was, k)))
    && (forall k :: k in done ==> At(now, k) == DeleteAt(d, k, At(was, k)))
  }

  lemma SweepOne(was: Fields, now: Fields, re: Regex, done: set<string>, j: string)
    requires Swept(was, now, AnyName(re), done)
    ensures Swept(was, AfterDelete(now, ByName(j, Some(re))), AnyName(re), done + {j})
  {
    var d := AnyName(re);
    var next := AfterDelete(now, ByName(j, Some(re)));
    forall k
      ensures At(next, k) == At(was, k) || At(next, k) == DeleteAt(d, k, At(was, k))
      ensures k in done + {j} ==> At(next, k) == DeleteAt(d, k, At(was, k))
    {
      WildcardStep(now, j, re, k);
      DeleteAtTwice(d, k, At(was, k));
    }
  }

  /** applyDelete. The keys are visited in any order: the result is the same for all of them. */
  method ApplyDelete(h: Header, d: DeleteOp)
    modifies h
    ensures h.m == AfterDelete(old(h.m), d)
  {
    if d.AnyName? {
      var keys := h.m.Keys;
      ghost var done: set<string> := {};
      while keys != {}
        invariant keys + done == old(h.m).Keys
        invariant Swept(old(h.m), h.m, d, done)
        decreases |keys|
      {
        var k :| k in keys;
        SweepOne(old(h.m), h.m, d.re, done, k);
        FilterHeaderValues(h, k, d.re);
        keys, done := keys - {k}, done + {k};
      }
      SameFields(h.m, AfterDelete(old(h.m), d));
      return;
    }
    var canonical := Canonical(d.name);
    CanonicalTwice(d.name);
    if d.valueRegex.None? {
      h.Del(canonical);
      FilteredFields(old(h.m), h.m, d, canonical);
      return;
    }
    FilterHeaderValues(h, canonical, d.valueRegex.value);
    SameDelete(old(h.m), d, canonical);
  }

  /** Deleting by a name or by its canonical form is the same. */
  lemma SameDelete(h: Fields, d: DeleteOp, canonical: string)
    requires d.ByName? && d.valueRegex.Some? && canonical == Canonical(d.name)
    ensures AfterDelete(h, ByName(canonical, d.valueRegex)) == AfterDelete(h, d)
  {
    var e := ByName(canonical, d.valueRegex);
    CanonicalTwice(d.name);
    forall k ensures At(AfterDelete(h, e), k) == At(AfterDelete(h, d), k) {
      WildcardStep(h, d.name, d.valueRegex.value, k);
      WildcardStep(h, canonical, d.valueRegex.value, k);
    }
    SameFields(AfterDelete(h, e), AfterDelete(h, d));
  }

  /** applySet. */
  method ApplySet(h: Header, s: SetOp)
    modifies h
    ensures h.m == AfterSet(old(h.m), s)
  {
    var canonical := Canonical(s.name);
    CanonicalTwice(s.name);
    match s.mode
    case Replace =>
      h.Set(canonical, s.value);
    case Append =>
      h.Add(canonical, s.value);
  }

  /** Ops.Apply. */
  method Apply(h: Header, ops: Ops)
    modifies h
    ensures h.m == Applied(old(h.m), ops)
  {
    for i := 0 to |ops.deletes|
      invariant h.m == AfterDeletes(old(h.m), ops.deletes[..i])
    {
      assert ops.deletes[..i + 1][..i] == ops.deletes[..i];
      ApplyDelete(h, ops.deletes[i]);
    }
    assert ops.deletes[..|ops.deletes|] == ops.deletes;
    for i := 0 to |ops.sets|
      invariant h.m == AfterSets(AfterDeletes(old(h.m), ops.deletes), ops.sets[..i])
    {
      assert ops.sets[..i + 1][..i] == ops.sets[..i];
      ApplySet(h, ops.sets[i]);
    }
    assert ops.sets[..|ops.sets|] == ops.sets;
  }
}

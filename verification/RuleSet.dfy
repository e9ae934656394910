/** internal/rules/ruleset.go: one file-ordered list of mixed rules becomes one list for each stage. */
module RuleSet {
  import opened Prelude
  import opened Bytes
  import opened HttpHeader
  import opened Rules
  import opened Rewrite
  import Redirect
  import MapLocal
  import MapRemote

  // ---- compiled rules ------------------------------------------------------------------

  datatype HeaderRule = HeaderRule(condition: Match, request: Ops, response: Ops)

  /** An inline response. */
  datatype MapRule = MapRule(condition: Match, body: seq<byte>, statusCode: int, contentType: string, response: Ops)

  /** CompileBodyReplaceRule refuses an empty search. */
  type SearchBytes = s: seq<byte> | s != [] witness [0]

  datatype BodySearch = Literal(text: SearchBytes) | Pattern(rewrite: seq<byte> -> seq<byte>)

  /** internal/rules/bodyreplace.go. */
  datatype BodyReplaceRule = BodyReplaceRule(
    condition: Match, contentType: Option<Regex>, search: BodySearch, replace: seq<byte>)
  {
    predicate Matches(fm: FlowMeta, ct: string) {
      condition.Matches(fm) && (contentType.Some? ==> contentType.value.Matches(ct))
    }

    function Apply(body: seq<byte>): seq<byte> {
      match search
      case Literal(text) => ReplaceAll(body, text, replace)
      case Pattern(rewrite) => rewrite(body)
    }
  }

  /** A rule of the map stage is one of two kinds. */
  datatype MappedRule = Inline(inline: MapRule) | Local(local: MapLocal.MapLocalRule)

  datatype RuleSet = RuleSet(
    headers: seq<HeaderRule>,
    redirect: seq<Redirect.RedirectRule>,
    mapped: seq<MappedRule>,
    inline: seq<MapRule>,
    mapLocal: seq<MapLocal.MapLocalRule>,
    mapRemote: seq<MapRemote.MapRemoteRule>,
    bodyReplace: seq<BodyReplaceRule>)

  const EMPTY := RuleSet([], [], [], [], [], [], [])

  // ---- raw rules -----------------------------------------------------------------------

  /** The fields of a rule that only its own compiler reads. */
  type RawFields(!new)

  datatype RawRule = RawRule(kind: string, enabled: Option<bool>, fields: RawFields) {
    predicate Skipped() {
      enabled == Some(false)
    }
  }

  /** The compilers of the single rule types; None is an error. */
  datatype Compilers = Compilers(
    header: RawFields -> Option<HeaderRule>,
    redirect: RawFields -> Option<Redirect.RedirectRule>,
    inline: RawFields -> Option<MapRule>,
    local: RawFields -> Option<MapLocal.MapLocalRule>,
    remote: RawFields -> Option<MapRemote.MapRemoteRule>,
    body: RawFields -> Option<BodyReplaceRule>)

  datatype CompileError = BadRule(index: nat, kind: string) | UnknownType(index: nat)

  // ---- the meaning of a rule file: its enabled rules in file order --------------------------

  datatype Rule =
    | HeaderEdit(header: HeaderRule)
    | Redirection(redirect: Redirect.RedirectRule)
    | Mapped(mapped: MappedRule)
    | Remote(remote: MapRemote.MapRemoteRule)
    | BodyEdit(body: BodyReplaceRule)

  datatype Stage = HeaderStage | RedirectStage | MapStage | RemoteStage | BodyStage | NoStage

  function StageOf(kind: string): Stage {
    if kind == "header" then HeaderStage
    else if kind == "redirect" then RedirectStage
    else if kind == "map" || kind == "map_local" then MapStage
    else if kind == "map_remote" then RemoteStage
    else if kind == "body_replace" then BodyStage
    else NoStage
  }

  function CompileOne(c: Compilers, raw: RawRule): Option<Rule> {
    if raw.kind == "header" then
      var hr :- c.header(raw.fields);
      Some(HeaderEdit(hr))
    else if raw.kind == "redirect" then
      var rr :- c.redirect(raw.fields);
      Some(Redirection(rr))
    else if raw.kind == "map" then
      var mr :- c.inline(raw.fields);
      Some(Mapped(Inline(mr)))
    else if raw.kind == "map_local" then
      var ml :- c.local(raw.fields);
      Some(Mapped(Local(ml)))
    else if raw.kind == "map_remote" then
      var mr :- c.remote(raw.fields);
      Some(Remote(mr))
    else if raw.kind == "body_replace" then
      var br :- c.body(raw.fields);
      Some(BodyEdit(br))
    else None
  }

  /** Every enabled rule compiled, in file order; None when one of them is in error. */
  function FileOrder(c: Compilers, raws: seq<RawRule>): Option<seq<Rule>> {
    if raws == [] then Some([])
    else if raws[0].Skipped() then FileOrder(c, raws[1..])
    else
      var rule :- CompileOne(c, raws[0]);
      var rules :- FileOrder(c, raws[1..]);
      Some([rule] + rules)
  }

  /** The rules that pick accepts, in order. */
  function Collect<T>(rules: seq<Rule>, pick: Rule -> Option<T>): seq<T> {
    if rules == [] then []
    else (if pick(rules[0]).Some? then [pick(rules[0]).value] else []) + Collect(rules[1..], pick)
  }

  function AsHeader(r: Rule): Option<HeaderRule> {
    if r.HeaderEdit? then Some(r.header) else None
  }

  function AsRedirect(r: Rule): Option<Redirect.RedirectRule> {
    if r.Redirection? then Some(r.redirect) else None
  }

  function AsMapped(r: Rule): Option<MappedRule> {
    if r.Mapped? then Some(r.mapped) else None
  }

  function AsInline(r: Rule): Option<MapRule> {
    if r.Mapped? && r.mapped.Inline? then Some(r.mapped.inline) else None
  }

  function AsLocal(r: Rule): Option<MapLocal.MapLocalRule> {
    if r.Mapped? && r.mapped.Local? then Some(r.mapped.local) else None
  }

  function AsRemote(r: Rule): Option<MapRemote.MapRemoteRule> {
    if r.Remote? then Some(r.remote) else None
  }

  function AsBody(r: Rule): Option<BodyReplaceRule> {
    if r.BodyEdit? then Some(r.body) else None
  }

  /** The staged form of a file-ordered list. */
  function Staged(rules: seq<Rule>): RuleSet {
    RuleSet(
      Collect(rules, AsHeader),
      Collect(rules, AsRedirect),
      Collect(rules, AsMapped),
      Collect(rules, AsInline),
      Collect(rules, AsLocal),
      Collect(rules, AsRemote),
      Collect(rules, AsBody))
  }

  /** What a rule file compiles to, when it does. */
  function Compiled(c: Compilers, raws: seq<RawRule>): Option<RuleSet> {
    var rules :- FileOrder(c, raws);
    Some(Staged(rules))
  }

  // ---- the loop ---------------------------------------------------------------------------

  lemma {:induction false} CollectAppend<T>(a: seq<Rule>, b: seq<Rule>, pick: Rule -> Option<T>)
    ensures Collect(a + b, pick) == Collect(a, pick) + Collect(b, pick)
  {
    if a == [] {
      assert a + b == b;
    } else {
      assert (a + b)[1..] == a[1..] + b;
      CollectAppend(a[1..], b, pick);
      var first := if pick(a[0]).Some? then [pick(a[0]).value] else [];
      assert (a + b)[0] == a[0];
      assert first + (Collect(a[1..], pick) + Collect(b, pick)) == (first + Collect(a[1..], pick)) + Collect(b, pick);
    }
  }

  lemma {:induction false} FileOrderAppend(c: Compilers, a: seq<RawRule>, b: seq<RawRule>)
    ensures FileOrder(c, a + b) ==
      if FileOrder(c, a).Some? && FileOrder(c, b).Some? then Some(FileOrder(c, a).value + FileOrder(c, b).value) else None
  {
    if a == [] {
      assert a + b == b;
      assert FileOrder(c, b).Some? ==> [] + FileOrder(c, b).value == FileOrder(c, b).value;
    } else {
      assert (a + b)[1..] == a[1..] + b;
      FileOrderAppend(c, a[1..], b);
      if !a[0].Skipped() && CompileOne(c, a[0]).Some? && FileOrder(c, a[1..]).Some? && FileOrder(c, b).Some? {
        assert [CompileOne(c, a[0]).value] + (FileOrder(c, a[1..]).value + FileOrder(c, b).value) ==
          FileOrder(c, a).value + FileOrder(c, b).value;
      }
    }
  }

  lemma FileOrderOne(c: Compilers, raw: RawRule)
    ensures FileOrder(c, [raw]) ==
      if raw.Skipped() then Some([]) else if CompileOne(c, raw).Some? then Some([CompileOne(c, raw).value]) else None
  {
    assert [raw][1..] == [] && FileOrder(c, []) == Some([]);
    if CompileOne(c, raw).Some? {
      assert [CompileOne(c, raw).value] + [] == [CompileOne(c, raw).value];
    }
  }

  lemma CollectOne<T>(rule: Rule, pick: Rule -> Option<T>)
    ensures Collect([rule], pick) == if pick(rule).Some? then [pick(rule).value] else []
  {
    assert [rule][1..] == [];
  }

  /** The staged form after one more rule. */
  lemma StagedAppend(rules: seq<Rule>, rule: Rule)
    ensures Staged(rules + [rule]) == match rule
      case HeaderEdit(hr) => Staged(rules).(headers := Staged(rules).headers + [hr])
      case Redirection(rr) => Staged(rules).(redirect := Staged(rules).redirect + [rr])
      case Mapped(m) =>
        if m.Inline? then Staged(rules).(mapped := Staged(rules).mapped + [m], inline := Staged(rules).inline + [m.inline])
        else Staged(rules).(mapped := Staged(rules).mapped + [m], mapLocal := Staged(rules).mapLocal + [m.local])
      case Remote(mr) => Staged(rules).(mapRemote := Staged(rules).mapRemote + [mr])
      case BodyEdit(br) => Staged(rules).(bodyReplace := Staged(rules).bodyReplace + [br])
  {
    CollectAppend(rules, [rule], AsHeader);
    CollectAppend(rules, [rule], AsRedirect);
    CollectAppend(rules, [rule], AsMapped);
    CollectAppend(rules, [rule], AsInline);
    CollectAppend(rules, [rule], AsLocal);
    CollectAppend(rules, [rule], AsRemote);
    CollectAppend(rules, [rule], AsBody);
    CollectOne(rule, AsHeader);
    CollectOne(rule, AsRedirect);
    CollectOne(rule, AsMapped);
    CollectOne(rule, AsInline);
    CollectOne(rule, AsLocal);
    CollectOne(rule, AsRemote);
    CollectOne(rule, AsBody);
  }

  /** The error of a rule that does not compile. */
  function ErrorAt(i: nat, raw: RawRule): CompileError {
    if StageOf(raw.kind) == NoStage then UnknownType(i) else BadRule(i, raw.kind)
  }

  /** i is the first rule in error. */
  predicate FirstFault(c: Compilers, raws: seq<RawRule>, i: nat) {
    i < |raws| && FileOrder(c, raws[..i]).Some? && !raws[i].Skipped() && CompileOne(c, raws[i]).None?
  }

  lemma FaultFails(c: Compilers, raws: seq<RawRule>, i: nat)
    requires FirstFault(c, raws, i)
    ensures FileOrder(c, raws).None?
  {
    FileOrderOne(c, raws[i]);
    FileOrderAppend(c, [raws[i]], raws[i + 1..]);
    FileOrderAppend(c, raws[..i], [raws[i]] + raws[i + 1..]);
    assert raws == raws[..i] + ([raws[i]] + raws[i + 1..]);
  }

  /** Compile. */
  method Compile(c: Compilers, raws: seq<RawRule>) returns (r: Result<RuleSet, CompileError>)
    ensures r.Ok? <==> Compiled(c, raws).Some?
    ensures r.Ok? ==> Compiled(c, raws) == Some(r.value)
    ensures r.Err? ==> FirstFault(c, raws, r.error.index) && r.error == ErrorAt(r.error.index, raws[r.error.index])
  {
    hide FileOrder, Collect, Staged;
    var rs := EMPTY;
    NothingStaged(c, raws[..0]);
    for i := 0 to |raws|
      invariant FileOrder(c, raws[..i]).Some? && rs == Staged(FileOrder(c, raws[..i]).value)
    {
      var raw := raws[i];
      FileOrderOne(c, raw);
      FileOrderAppend(c, raws[..i], [raw]);
      assert raws[..i + 1] == raws[..i] + [raw];
      ghost var rules := FileOrder(c, raws[..i]).value;
      if raw.enabled.Some? && !raw.enabled.value {
        assert rules + [] == rules;
        continue;
      }
      if CompileOne(c, raw).None? {
        FaultFails(c, raws, i);
      } else {
        StagedAppend(rules, CompileOne(c, raw).value);
      }
      match raw.kind
      case "header" =>
        var hr := c.header(raw.fields);
        if hr.None? {
          return Err(BadRule(i, "header"));
        }
        rs := rs.(headers := rs.headers + [hr.value]);
      case "redirect" =>
        var rr := c.redirect(raw.fields);
        if rr.None? {
          return Err(BadRule(i, "redirect"));
        }
        rs := rs.(redirect := rs.redirect + [rr.value]);
      case "map" =>
        var mr := c.inline(raw.fields);
        if mr.None? {
          return Err(BadRule(i, "map"));
        }
        rs := rs.(inline := rs.inline + [mr.value], mapped := rs.mapped + [Inline(mr.value)]);
      case "map_local" =>
        var ml := c.local(raw.fields);
        if ml.None? {
          return Err(BadRule(i, "map_local"));
        }
        rs := rs.(mapLocal := rs.mapLocal + [ml.value], mapped := rs.mapped + [Local(ml.value)]);
      case "map_remote" =>
        var mr := c.remote(raw.fields);
        if mr.None? {
          return Err(BadRule(i, "map_remote"));
        }
        rs := rs.(mapRemote := rs.mapRemote + [mr.value]);
      case "body_replace" =>
        var br := c.body(raw.fields);
        if br.None? {
          return Err(BadRule(i, "body_replace"));
        }
        rs := rs.(bodyReplace := rs.bodyReplace + [br.value]);
      case _ =>
        return Err(UnknownType(i));
    }
    assert raws[..|raws|] == raws;
    r := Ok(rs);
  }

  lemma NothingStaged(c: Compilers, raws: seq<RawRule>)
    requires raws == []
    ensures FileOrder(c, raws) == Some([]) && Staged([]) == EMPTY
  {
  }

  // ---- only the order inside each stage matters ----------------------------------------------

  /** The enabled rules of one stage, in file order. */
  function OfStage(raws: seq<RawRule>, s: Stage): seq<RawRule> {
    if raws == [] then []
    else (if !raws[0].Skipped() && StageOf(raws[0].kind) == s then [raws[0]] else []) + OfStage(raws[1..], s)
  }

  function StageOfRule(rule: Rule): Stage {
    match rule
    case HeaderEdit(_) => HeaderStage
    case Redirection(_) => RedirectStage
    case Mapped(_) => MapStage
    case Remote(_) => RemoteStage
    case BodyEdit(_) => BodyStage
  }

  lemma CompiledStage(c: Compilers, raw: RawRule)
    ensures CompileOne(c, raw).Some? ==> StageOfRule(CompileOne(c, raw).value) == StageOf(raw.kind)
  {
  }

  /** Compiling a whole file succeeds only if compiling each stage by itself does. */
  lemma {:induction false} StageCompiles(c: Compilers, raws: seq<RawRule>, s: Stage)
    requires FileOrder(c, raws).Some?
    ensures FileOrder(c, OfStage(raws, s)).Some?
  {
    if raws != [] {
      StageCompiles(c, raws[1..], s);
      FileOrderOne(c, raws[0]);
      FileOrderAppend(c, [raws[0]], OfStage(raws[1..], s));
      assert [] + OfStage(raws[1..], s) == OfStage(raws[1..], s);
    }
  }

  lemma {:induction false} AllStagesCompile(c: Compilers, raws: seq<RawRule>)
    requires forall s :: FileOrder(c, OfStage(raws, s)).Some?
    ensures FileOrder(c, raws).Some?
  {
    if raws != [] {
      FileOrderOne(c, raws[0]);
      forall s ensures FileOrder(c, OfStage(raws[1..], s)).Some? {
        assert FileOrder(c, OfStage(raws, s)).Some?;
        FileOrderAppend(c, [raws[0]], OfStage(raws[1..], s));
        assert [] + OfStage(raws[1..], s) == OfStage(raws[1..], s);
      }
      AllStagesCompile(c, raws[1..]);
      if !raws[0].Skipped() {
        FileOrderAppend(c, [raws[0]], OfStage(raws[1..], StageOf(raws[0].kind)));
        assert FileOrder(c, OfStage(raws, StageOf(raws[0].kind))).Some?;
      }
    }
  }

  /** What a stage collects comes from the rules of that stage alone. */
  lemma {:induction false} CollectStage<T>(c: Compilers, raws: seq<RawRule>, s: Stage, pick: Rule -> Option<T>)
    requires FileOrder(c, raws).Some? && FileOrder(c, OfStage(raws, s)).Some?
    requires forall rule :: pick(rule).Some? ==> StageOfRule(rule) == s
    ensures Collect(FileOrder(c, raws).value, pick) == Collect(FileOrder(c, OfStage(raws, s)).value, pick)
  {
    if raws != [] {
      StageCompiles(c, raws[1..], s);
      CollectStage(c, raws[1..], s, pick);
      if raws[0].Skipped() {
        assert [] + OfStage(raws[1..], s) == OfStage(raws[1..], s);
      } else {
        var rule := CompileOne(c, raws[0]).value;
        CompiledStage(c, raws[0]);
        CollectOne(rule, pick);
        CollectAppend([rule], FileOrder(c, raws[1..]).value, pick);
        if StageOf(raws[0].kind) == s {
          FileOrderOne(c, raws[0]);
          FileOrderAppend(c, [raws[0]], OfStage(raws[1..], s));
          CollectAppend([rule], FileOrder(c, OfStage(raws[1..], s)).value, pick);
        } else {
          assert [] + OfStage(raws[1..], s) == OfStage(raws[1..], s);
        }
      }
    }
  }

  /**
   Two files that list the same enabled rules in the same order within every
   stage compile to the same rule set, or both fail.
  */
  lemma OnlyStageOrderMatters(c: Compilers, a: seq<RawRule>, b: seq<RawRule>)
    requires forall s :: OfStage(a, s) == OfStage(b, s)
    ensures Compiled(c, a) == Compiled(c, b)
  {
    if FileOrder(c, a).Some? {
      SameStages(c, a, b);
    } else if FileOrder(c, b).Some? {
      SameStages(c, b, a);
    }
  }

  lemma SameStages(c: Compilers, a: seq<RawRule>, b: seq<RawRule>)
    requires FileOrder(c, a).Some? && forall s :: OfStage(a, s) == OfStage(b, s)
    ensures FileOrder(c, b).Some? && Staged(FileOrder(c, a).value) == Staged(FileOrder(c, b).value)
  {
    forall s ensures FileOrder(c, OfStage(a, s)).Some? && OfStage(a, s) == OfStage(b, s) {
      StageCompiles(c, a, s);
    }
    AllStagesCompile(c, b);
    SameCollection(c, a, b, HeaderStage, AsHeader);
    SameCollection(c, a, b, RedirectStage, AsRedirect);
    SameCollection(c, a, b, MapStage, AsMapped);
    SameCollection(c, a, b, MapStage, AsInline);
    SameCollection(c, a, b, MapStage, AsLocal);
    SameCollection(c, a, b, RemoteStage, AsRemote);
    SameCollection(c, a, b, BodyStage, AsBody);
  }

  lemma SameCollection<T>(c: Compilers, a: seq<RawRule>, b: seq<RawRule>, s: Stage, pick: Rule -> Option<T>)
    requires FileOrder(c, a).Some? && FileOrder(c, b).Some? && OfStage(a, s) == OfStage(b, s)
    requires forall rule :: pick(rule).Some? ==> StageOfRule(rule) == s
    ensures Collect(FileOrder(c, a).value, pick) == Collect(FileOrder(c, b).value, pick)
  {
    StageCompiles(c, a, s);
    CollectStage(c, a, s, pick);
    CollectStage(c, b, s, pick);
  }

  lemma {:induction false} OfStageAppend(a: seq<RawRule>, b: seq<RawRule>, s: Stage)
    ensures OfStage(a + b, s) == OfStage(a, s) + OfStage(b, s)
  {
    if a == [] {
      assert a + b == b;
    } else {
      assert (a + b)[1..] == a[1..] + b && (a + b)[0] == a[0];
      OfStageAppend(a[1..], b, s);
      var first := if !a[0].Skipped() && StageOf(a[0].kind) == s then [a[0]] else [];
      assert first + (OfStage(a[1..], s) + OfStage(b, s)) == (first + OfStage(a[1..], s)) + OfStage(b, s);
    }
  }

  /** Dropping a disabled rule, valid or not, changes nothing. */
  lemma DisabledRulesAreIgnored(c: Compilers, before: seq<RawRule>, raw: RawRule, after: seq<RawRule>)
    requires raw.enabled == Some(false)
    ensures Compiled(c, before + [raw] + after) == Compiled(c, before + after)
  {
    forall s ensures OfStage(before + [raw] + after, s) == OfStage(before + after, s) {
      OfStageAppend(before + [raw], after, s);
      OfStageAppend(before, [raw], s);
      OfStageAppend(before, after, s);
      OfStageOne(raw, s);
    }
    OnlyStageOrderMatters(c, before + [raw] + after, before + after);
  }

  lemma OfStageOne(raw: RawRule, s: Stage)
    ensures OfStage([raw], s) == if !raw.Skipped() && StageOf(raw.kind) == s then [raw] else []
  {
    assert [raw][1..] == [];
  }

  lemma SwapInStage(before: seq<RawRule>, x: RawRule, y: RawRule, after: seq<RawRule>, s: Stage)
    requires StageOf(x.kind) != StageOf(y.kind)
    ensures OfStage(before + [x] + [y] + after, s) == OfStage(before + [y] + [x] + after, s)
  {
    hide OfStage;
    OfStageOne(x, s);
    OfStageOne(y, s);
    OfStageAppend(before + [x] + [y], after, s);
    OfStageAppend(before + [x], [y], s);
    OfStageAppend(before, [x], s);
    OfStageAppend(before + [y] + [x], after, s);
    OfStageAppend(before + [y], [x], s);
    OfStageAppend(before, [y], s);
  }

  /** Swapping two neighbours of different stages changes nothing. */
  lemma StagesCommute(c: Compilers, before: seq<RawRule>, x: RawRule, y: RawRule, after: seq<RawRule>)
    requires StageOf(x.kind) != StageOf(y.kind)
    ensures Compiled(c, before + [x] + [y] + after) == Compiled(c, before + [y] + [x] + after)
  {
    forall s ensures OfStage(before + [x] + [y] + after, s) == OfStage(before + [y] + [x] + after, s) {
      SwapInStage(before, x, y, after, s);
    }
    OnlyStageOrderMatters(c, before + [x] + [y] + after, before + [y] + [x] + after);
  }

  // ---- what one rule of a file adds ------------------------------------------------------------

  /** One rule set after another, stage by stage. */
  function Then(a: RuleSet, b: RuleSet): RuleSet {
    RuleSet(
      a.headers + b.headers,
      a.redirect + b.redirect,
      a.mapped + b.mapped,
      a.inline + b.inline,
      a.mapLocal + b.mapLocal,
      a.mapRemote + b.mapRemote,
      a.bodyReplace + b.bodyReplace)
  }

  lemma StagedInTwo(a: seq<Rule>, b: seq<Rule>)
    ensures Staged(a + b) == Then(Staged(a), Staged(b))
  {
    CollectAppend(a, b, AsHeader);
    CollectAppend(a, b, AsRedirect);
    CollectAppend(a, b, AsMapped);
    CollectAppend(a, b, AsInline);
    CollectAppend(a, b, AsLocal);
    CollectAppend(a, b, AsRemote);
    CollectAppend(a, b, AsBody);
  }

  /** A file in two parts compiles exactly when both parts do, to one rule set after the other. */
  lemma CompiledInTwo(c: Compilers, a: seq<RawRule>, b: seq<RawRule>)
    ensures Compiled(c, a + b) ==
      if Compiled(c, a).Some? && Compiled(c, b).Some? then Some(Then(Compiled(c, a).value, Compiled(c, b).value)) else None
  {
    FileOrderAppend(c, a, b);
    if FileOrder(c, a).Some? && FileOrder(c, b).Some? {
      StagedInTwo(FileOrder(c, a).value, FileOrder(c, b).value);
    }
  }

  /** The rule set of a single rule, type by type; None for an unknown type or a rule in error. */
  function Alone(c: Compilers, raw: RawRule): Option<RuleSet> {
    match raw.kind
    case "header" =>
      var hr :- c.header(raw.fields);
      Some(EMPTY.(headers := [hr]))
    case "redirect" =>
      var rr :- c.redirect(raw.fields);
      Some(EMPTY.(redirect := [rr]))
    case "map" =>
      var mr :- c.inline(raw.fields);
      Some(EMPTY.(mapped := [Inline(mr)], inline := [mr]))
    case "map_local" =>
      var ml :- c.local(raw.fields);
      Some(EMPTY.(mapped := [Local(ml)], mapLocal := [ml]))
    case "map_remote" =>
      var mr :- c.remote(raw.fields);
      Some(EMPTY.(mapRemote := [mr]))
    case "body_replace" =>
      var br :- c.body(raw.fields);
      Some(EMPTY.(bodyReplace := [br]))
    case _ => None
  }

  lemma CompiledAlone(c: Compilers, raw: RawRule)
    ensures Compiled(c, [raw]) == if raw.enabled == Some(false) then Some(EMPTY) else Alone(c, raw)
  {
    hide FileOrder, Collect;
    NothingStaged(c, []);
    FileOrderOne(c, raw);
    if CompileOne(c, raw).Some? {
      var rule := CompileOne(c, raw).value;
      CollectOne(rule, AsHeader);
      CollectOne(rule, AsRedirect);
      CollectOne(rule, AsMapped);
      CollectOne(rule, AsInline);
      CollectOne(rule, AsLocal);
      CollectOne(rule, AsRemote);
      CollectOne(rule, AsBody);
    }
  }

  lemma AloneIgnoresEnabled(c: Compilers, raw: RawRule, enabled: Option<bool>)
    ensures Alone(c, raw.(enabled := enabled)) == Alone(c, raw)
  {
  }

  /**
   A rule is enabled unless its enabled key says false. An enabled rule adds itself
   to the stage of its type, between what stands before and after it, and fails the
   file when it does not compile; a disabled one adds nothing.
  */
  lemma EnabledRuleTakesItsPlace(c: Compilers, before: seq<RawRule>, raw: RawRule, after: seq<RawRule>)
    ensures var added := if raw.enabled == Some(false) then Some(EMPTY) else Alone(c, raw);
      Compiled(c, before + [raw] + after) ==
        if Compiled(c, before).Some? && added.Some? && Compiled(c, after).Some?
        then Some(Then(Then(Compiled(c, before).value, added.value), Compiled(c, after).value))
        else None
  {
    hide Alone, Then;
    CompiledAlone(c, raw);
    CompiledInTwo(c, before, [raw]);
    CompiledInTwo(c, before + [raw], after);
  }

  /** No enabled key and enabled: true are the same. */
  lemma AbsentMeansEnabled(c: Compilers, before: seq<RawRule>, raw: RawRule, after: seq<RawRule>)
    ensures Compiled(c, before + [raw.(enabled := None)] + after) == Compiled(c, before + [raw.(enabled := Some(true))] + after)
  {
    hide Alone, Then, Compiled;
    AloneIgnoresEnabled(c, raw, None);
    AloneIgnoresEnabled(c, raw, Some(true));
    EnabledRuleTakesItsPlace(c, before, raw.(enabled := None), after);
    EnabledRuleTakesItsPlace(c, before, raw.(enabled := Some(true)), after);
  }
}

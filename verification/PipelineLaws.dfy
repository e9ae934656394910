/** The staged pipeline means what a single walk over the rule file means, and what every response keeps. */
module PipelineLaws {
  import opened Prelude
  import opened Bytes
  import opened GoStrings
  import opened HttpHeader
  import opened HeaderLaws
  import opened HopByHop
  import opened Rules
  import opened RuleSet
  import opened Pipeline
  import MapLocal
  import MapRemote
  import Redirect

  // ---- the reference interpreter: one walk over the rules in file order ----------------------

  /** What the walk has learnt so far. */
  datatype Walked = Walked(
    request: Fields,
    redirect: Option<Redirect.RedirectResult>,
    mapped: Option<Decision>,
    remote: Option<MapRemote.Target>,
    edits: seq<BodyReplaceRule>,
    responses: seq<Ops>)

  /** One rule: the first redirect, mapped and remote rules that apply win, every other kind adds up. */
  function Visit(env: Env, fm: FlowMeta, w: Walked, rule: Rule): Walked {
    match rule
    case HeaderEdit(hr) =>
      if hr.condition.Matches(fm) then
        w.(request := Applied(w.request, hr.request), responses := w.responses + [hr.response])
      else w
    case Redirection(rr) => if w.redirect.None? then w.(redirect := Redirect.Resolve(rr, fm)) else w
    case Mapped(m) => if w.mapped.None? then w.(mapped := Decide(env, m, fm)) else w
    case Remote(mr) => if w.remote.None? then w.(remote := MapRemote.Resolve(mr, fm)) else w
    case BodyEdit(br) => if br.condition.Matches(fm) then w.(edits := w.edits + [br]) else w
  }

  function Walk(env: Env, fm: FlowMeta, w: Walked, rules: seq<Rule>): Walked
    decreases |rules|
  {
    if rules == [] then w else Walk(env, fm, Visit(env, fm, w, rules[0]), rules[1..])
  }

  function AppliedAll(h: Fields, edits: seq<Ops>): Fields
    decreases |edits|
  {
    if edits == [] then h else AppliedAll(Applied(h, edits[0]), edits[1..])
  }

  function Accepting(edits: seq<BodyReplaceRule>, ct: string): seq<BodyReplaceRule> {
    if edits == [] then []
    else if edits[0].contentType.Some? && !edits[0].contentType.value.Matches(ct) then Accepting(edits[1..], ct)
    else [edits[0]] + Accepting(edits[1..], ct)
  }

  /** The end of the walk: edit the body, then the headers. */
  function Concluded(w: Walked, r: Response, own: seq<Ops>): Result<Response, RunError> {
    var edits := if r.body.None? || !IsIdentity(Values(r.headers, "Content-Encoding")) then [] else w.edits;
    var edited :- if edits == [] then Ok(r) else Rewritten(Accepting(edits, Get(r.headers, "Content-Type")), r);
    Ok(edited.(headers := AppliedAll(edited.headers, w.responses + own)))
  }

  function Interpreted(p: Pipeline, env: Env, fm: FlowMeta, h: Fields, body: Option<Body>, rules: seq<Rule>)
    : Result<Response, RunError>
  {
    var w := Walk(env, fm, Walked(h, None, None, None, [], []), rules);
    if w.redirect.Some? then Concluded(w, RedirectResponse(w.redirect.value), [w.redirect.value.response])
    else
      match w.mapped
      case Some(Serve(response, ops)) => Concluded(w, response, [ops])
      case Some(Forbid) => Ok(EmptyResponse(403, "local"))
      case Some(Fail(e)) => Err(e)
      case None =>
        var r :- Roundtrip(p, env, fm, w.request, body, w.remote);
        Concluded(w, r, [])
  }

  // ---- the walk computes each stage ------------------------------------------------------------

  function Responses(rules: seq<HeaderRule>, fm: FlowMeta): seq<Ops> {
    if rules == [] then []
    else (if rules[0].condition.Matches(fm) then [rules[0].response] else []) + Responses(rules[1..], fm)
  }

  function Conditional(rules: seq<BodyReplaceRule>, fm: FlowMeta): seq<BodyReplaceRule> {
    if rules == [] then []
    else (if rules[0].condition.Matches(fm) then [rules[0]] else []) + Conditional(rules[1..], fm)
  }

  /** What the stages of a rule set find, put together. */
  function StagesFrom(env: Env, fm: FlowMeta, w: Walked, rs: RuleSet): Walked {
    Walked(
      RequestHeader(rs.headers, fm, w.request),
      if w.redirect.Some? then w.redirect else FirstRedirect(rs.redirect, fm),
      if w.mapped.Some? then w.mapped else FirstMapped(env, rs.mapped, fm),
      if w.remote.Some? then w.remote else FirstRemote(rs.mapRemote, fm),
      w.edits + Conditional(rs.bodyReplace, fm),
      w.responses + Responses(rs.headers, fm))
  }

  lemma StagedCons(rule: Rule, rules: seq<Rule>)
    ensures Staged([rule] + rules) == match rule
      case HeaderEdit(hr) => Staged(rules).(headers := [hr] + Staged(rules).headers)
      case Redirection(rr) => Staged(rules).(redirect := [rr] + Staged(rules).redirect)
      case Mapped(m) =>
        if m.Inline? then Staged(rules).(mapped := [m] + Staged(rules).mapped, inline := [m.inline] + Staged(rules).inline)
        else Staged(rules).(mapped := [m] + Staged(rules).mapped, mapLocal := [m.local] + Staged(rules).mapLocal)
      case Remote(mr) => Staged(rules).(mapRemote := [mr] + Staged(rules).mapRemote)
      case BodyEdit(br) => Staged(rules).(bodyReplace := [br] + Staged(rules).bodyReplace)
  {
    assert ([rule] + rules)[1..] == rules;
  }

  lemma HeadersCons(hr: HeaderRule, rules: seq<HeaderRule>, fm: FlowMeta, h: Fields)
    ensures RequestHeader([hr] + rules, fm, h) ==
      RequestHeader(rules, fm, if hr.condition.Matches(fm) then Applied(h, hr.request) else h)
    ensures Responses([hr] + rules, fm) == (if hr.condition.Matches(fm) then [hr.response] else []) + Responses(rules, fm)
  {
    assert ([hr] + rules)[1..] == rules;
  }

  lemma FirstRedirectCons(rr: Redirect.RedirectRule, rules: seq<Redirect.RedirectRule>, fm: FlowMeta)
    ensures FirstRedirect([rr] + rules, fm) ==
      if Redirect.Resolve(rr, fm).Some? then Redirect.Resolve(rr, fm) else FirstRedirect(rules, fm)
  {
    assert ([rr] + rules)[1..] == rules;
  }

  lemma FirstMappedCons(env: Env, m: MappedRule, rules: seq<MappedRule>, fm: FlowMeta)
    ensures FirstMapped(env, [m] + rules, fm) ==
      if Decide(env, m, fm).Some? then Decide(env, m, fm) else FirstMapped(env, rules, fm)
  {
    assert ([m] + rules)[1..] == rules;
  }

  lemma FirstRemoteCons(mr: MapRemote.MapRemoteRule, rules: seq<MapRemote.MapRemoteRule>, fm: FlowMeta)
    ensures FirstRemote([mr] + rules, fm) ==
      if MapRemote.Resolve(mr, fm).Some? then MapRemote.Resolve(mr, fm) else FirstRemote(rules, fm)
  {
    assert ([mr] + rules)[1..] == rules;
  }

  lemma EditsCons(br: BodyReplaceRule, rules: seq<BodyReplaceRule>, fm: FlowMeta)
    ensures Conditional([br] + rules, fm) == (if br.condition.Matches(fm) then [br] else []) + Conditional(rules, fm)
  {
    assert ([br] + rules)[1..] == rules;
  }

  /** One step of the walk and one more rule at the head of its stage agree. */
  lemma StagesVisit(env: Env, fm: FlowMeta, w: Walked, rule: Rule, rules: seq<Rule>)
    ensures StagesFrom(env, fm, w, Staged([rule] + rules)) == StagesFrom(env, fm, Visit(env, fm, w, rule), Staged(rules))
  {
    hide Staged, RequestHeader, Responses, FirstRedirect, FirstMapped, FirstRemote, Conditional;
    var rs := Staged(rules);
    StagedCons(rule, rules);
    match rule
    case HeaderEdit(hr) =>
      HeadersCons(hr, rs.headers, fm, w.request);
      assert w.responses + ([hr.response] + Responses(rs.headers, fm)) == w.responses + [hr.response] + Responses(rs.headers, fm);
      assert [] + Responses(rs.headers, fm) == Responses(rs.headers, fm);
    case Redirection(rr) =>
      FirstRedirectCons(rr, rs.redirect, fm);
    case Mapped(m) =>
      FirstMappedCons(env, m, rs.mapped, fm);
    case Remote(mr) =>
      FirstRemoteCons(mr, rs.mapRemote, fm);
    case BodyEdit(br) =>
      EditsCons(br, rs.bodyReplace, fm);
      assert w.edits + ([br] + Conditional(rs.bodyReplace, fm)) == w.edits + [br] + Conditional(rs.bodyReplace, fm);
      assert [] + Conditional(rs.bodyReplace, fm) == Conditional(rs.bodyReplace, fm);
  }

  lemma {:induction false} WalkIsStaged(env: Env, fm: FlowMeta, w: Walked, rules: seq<Rule>)
    ensures Walk(env, fm, w, rules) == StagesFrom(env, fm, w, Staged(rules))
    decreases |rules|
  {
    if rules == [] {
      assert w.edits + [] == w.edits && w.responses + [] == w.responses;
    } else {
      WalkIsStaged(env, fm, Visit(env, fm, w, rules[0]), rules[1..]);
      StagesVisit(env, fm, w, rules[0], rules[1..]);
      assert [rules[0]] + rules[1..] == rules;
    }
  }

  lemma {:induction false} ResponsesAppliedInOrder(rules: seq<HeaderRule>, fm: FlowMeta, h: Fields)
    ensures ResponseHeader(rules, fm, h) == AppliedAll(h, Responses(rules, fm))
    decreases |rules|
  {
    if rules != [] {
      var rest := Responses(rules[1..], fm);
      if rules[0].condition.Matches(fm) {
        ResponsesAppliedInOrder(rules[1..], fm, Applied(h, rules[0].response));
        assert ([rules[0].response] + rest)[1..] == rest;
      } else {
        ResponsesAppliedInOrder(rules[1..], fm, h);
        assert [] + rest == rest;
      }
    }
  }

  lemma {:induction false} AppliedAllAppend(h: Fields, edits: seq<Ops>, more: seq<Ops>)
    ensures AppliedAll(h, edits + more) == AppliedAll(AppliedAll(h, edits), more)
    decreases |edits|
  {
    if edits == [] {
      assert edits + more == more;
    } else {
      assert (edits + more)[1..] == edits[1..] + more;
      AppliedAllAppend(Applied(h, edits[0]), edits[1..], more);
    }
  }

  lemma {:induction false} MatchingInTwoSteps(rules: seq<BodyReplaceRule>, fm: FlowMeta, ct: string)
    ensures Matching(rules, fm, ct) == Accepting(Conditional(rules, fm), ct)
  {
    if rules != [] {
      MatchingInTwoSteps(rules[1..], fm, ct);
      var rest := Conditional(rules[1..], fm);
      assert ([rules[0]] + rest)[1..] == rest && [] + rest == rest;
    }
  }

  lemma ConcludedIsFinished(rs: RuleSet, fm: FlowMeta, w: Walked, r: Response, own: Option<Ops>)
    requires w.edits == Conditional(rs.bodyReplace, fm) && w.responses == Responses(rs.headers, fm)
    ensures Concluded(w, r, if own.Some? then [own.value] else []) == Finished(rs, fm, r, own)
  {
    hide IsIdentity, Values, Get, Applied;
    MatchingInTwoSteps(rs.bodyReplace, fm, Get(r.headers, "Content-Type"));
    var edited := BodyEdited(rs.bodyReplace, fm, r);
    if edited.Ok? {
      var h := edited.value.headers;
      ResponsesAppliedInOrder(rs.headers, fm, h);
      AppliedAllAppend(h, w.responses, if own.Some? then [own.value] else []);
      if own.Some? {
        OneApplied(AppliedAll(h, w.responses), own.value);
      }
    }
  }

  lemma OneApplied(h: Fields, ops: Ops)
    ensures AppliedAll(h, [ops]) == Applied(h, ops)
  {
    assert [ops][1..] == [];
  }

  /** Running the stages of a rule list and walking the list once give the same response, or the same error. */
  lemma StagesMeanTheWalk(p: Pipeline, env: Env, fm: FlowMeta, h: Fields, body: Option<Body>, rules: seq<Rule>)
    requires p.ruleset == Some(Staged(rules))
    ensures Outcome(p, env, fm, h, body) == Interpreted(p, env, fm, h, body, rules)
  {
    hide Staged, RequestHeader, Responses, FirstRedirect, FirstMapped, FirstRemote, Conditional, Finished, Concluded, Roundtrip;
    var start := Walked(h, None, None, None, [], []);
    var rs, w := Staged(rules), Walk(env, fm, start, rules);
    WalkIsStaged(env, fm, start, rules);
    assert [] + Conditional(rs.bodyReplace, fm) == Conditional(rs.bodyReplace, fm);
    assert [] + Responses(rs.headers, fm) == Responses(rs.headers, fm);
    if w.redirect.Some? {
      ConcludedIsFinished(rs, fm, w, RedirectResponse(w.redirect.value), Some(w.redirect.value.response));
    } else if w.mapped.Some? {
      if w.mapped.value.Serve? {
        ConcludedIsFinished(rs, fm, w, w.mapped.value.response, Some(w.mapped.value.ops));
      }
    } else {
      var r := Roundtrip(p, env, fm, w.request, body, w.remote);
      if r.Ok? {
        ConcludedIsFinished(rs, fm, w, r.value, None);
      }
    }
  }

  /** Run on what a rule file compiles to means one walk over the file's enabled rules. */
  lemma CompiledRunMeansTheWalk(c: Compilers, raws: seq<RawRule>, p: Pipeline, env: Env, fm: FlowMeta,
                                h: Fields, body: Option<Body>)
    requires Compiled(c, raws).Some? && p.ruleset == Compiled(c, raws)
    ensures FileOrder(c, raws).Some?
    ensures Outcome(p, env, fm, h, body) == Interpreted(p, env, fm, h, body, FileOrder(c, raws).value)
  {
    StagesMeanTheWalk(p, env, fm, h, body, FileOrder(c, raws).value);
  }

  /** So reordering a file across stages, or dropping disabled rules, leaves every walk's response as it was. */
  lemma ReorderedFilesRunTheSame(c: Compilers, a: seq<RawRule>, b: seq<RawRule>, p: Pipeline, env: Env, fm: FlowMeta,
                                 h: Fields, body: Option<Body>)
    requires forall s :: OfStage(a, s) == OfStage(b, s)
    ensures FileOrder(c, a).Some? <==> FileOrder(c, b).Some?
    ensures FileOrder(c, a).Some? ==>
      Interpreted(p, env, fm, h, body, FileOrder(c, a).value) == Interpreted(p, env, fm, h, body, FileOrder(c, b).value)
  {
    OnlyStageOrderMatters(c, a, b);
    if FileOrder(c, a).Some? {
      var q := p.(ruleset := Compiled(c, a));
      CompiledRunMeansTheWalk(c, a, q, env, fm, h, body);
      CompiledRunMeansTheWalk(c, b, q, env, fm, h, body);
      RulesetIsNotRead(p, q, env, fm, h, body, FileOrder(c, a).value);
      RulesetIsNotRead(p, q, env, fm, h, body, FileOrder(c, b).value);
    }
  }

  lemma RulesetIsNotRead(p: Pipeline, q: Pipeline, env: Env, fm: FlowMeta, h: Fields, body: Option<Body>, rules: seq<Rule>)
    requires p.maxRequestBody == q.maxRequestBody
    ensures Interpreted(p, env, fm, h, body, rules) == Interpreted(q, env, fm, h, body, rules)
  {
  }

  // ---- who answers does not look at the request's headers or body ------------------------------

  /** A redirect or a rule of the map stage answers. */
  predicate AnsweredByRule(p: Pipeline, env: Env, fm: FlowMeta) {
    FirstRedirect(p.Active().redirect, fm).Some? || FirstMapped(env, p.Active().mapped, fm).Some?
  }

  /**
   The answer of a redirect or mapped rule depends on the request metadata alone,
   for the stages and for the walk, although the walk edits the request header on its way.
  */
  lemma RuleAnswersIgnoreTheRequest(p: Pipeline, env: Env, fm: FlowMeta, rules: seq<Rule>, h: Fields, body: Option<Body>,
                                    otherH: Fields, otherBody: Option<Body>)
    requires p.ruleset == Some(Staged(rules)) && AnsweredByRule(p, env, fm)
    ensures Outcome(p, env, fm, h, body) == Outcome(p, env, fm, otherH, otherBody)
    ensures Interpreted(p, env, fm, h, body, rules) == Interpreted(p, env, fm, otherH, otherBody, rules)
  {
    StagesMeanTheWalk(p, env, fm, h, body, rules);
    StagesMeanTheWalk(p, env, fm, otherH, otherBody, rules);
  }

  /** The redirect that answers is that of the first rule that rewrites the URL. */
  lemma {:induction false} FirstRedirectIsFirst(rules: seq<Redirect.RedirectRule>, fm: FlowMeta)
    ensures FirstRedirect(rules, fm).None? <==> forall i :: 0 <= i < |rules| ==> Redirect.Resolve(rules[i], fm).None?
    ensures FirstRedirect(rules, fm).Some? ==> exists i ::
      && 0 <= i < |rules| && FirstRedirect(rules, fm) == Redirect.Resolve(rules[i], fm)
      && forall j :: 0 <= j < i ==> Redirect.Resolve(rules[j], fm).None?
  {
    hide Redirect.Resolve;
    if rules != [] && Redirect.Resolve(rules[0], fm).None? {
      FirstRedirectIsFirst(rules[1..], fm);
      assert forall i | 0 <= i < |rules[1..]| :: rules[1..][i] == rules[i + 1];
      if FirstRedirect(rules, fm).Some? {
        var i :| 0 <= i < |rules[1..]| && FirstRedirect(rules[1..], fm) == Redirect.Resolve(rules[1..][i], fm) &&
          forall j :: 0 <= j < i ==> Redirect.Resolve(rules[1..][j], fm).None?;
        assert forall j | 0 < j < i + 1 :: rules[j] == rules[1..][j - 1];
        assert FirstRedirect(rules, fm) == Redirect.Resolve(rules[i + 1], fm);
      }
    }
  }

  /** The decision of the map stage is that of the first rule that makes one. */
  lemma {:induction false} FirstMappedIsFirst(env: Env, rules: seq<MappedRule>, fm: FlowMeta)
    ensures FirstMapped(env, rules, fm).None? <==> forall i :: 0 <= i < |rules| ==> Decide(env, rules[i], fm).None?
    ensures FirstMapped(env, rules, fm).Some? ==> exists i ::
      && 0 <= i < |rules| && FirstMapped(env, rules, fm) == Decide(env, rules[i], fm)
      && forall j :: 0 <= j < i ==> Decide(env, rules[j], fm).None?
  {
    hide Decide;
    if rules != [] && Decide(env, rules[0], fm).None? {
      FirstMappedIsFirst(env, rules[1..], fm);
      assert forall i | 0 <= i < |rules[1..]| :: rules[1..][i] == rules[i + 1];
      if FirstMapped(env, rules, fm).Some? {
        var i :| 0 <= i < |rules[1..]| && FirstMapped(env, rules[1..], fm) == Decide(env, rules[1..][i], fm) &&
          forall j :: 0 <= j < i ==> Decide(env, rules[1..][j], fm).None?;
        assert forall j | 0 < j < i + 1 :: rules[j] == rules[1..][j - 1];
        assert FirstMapped(env, rules, fm) == Decide(env, rules[i + 1], fm);
      }
    }
  }

  // ---- the request upstream ----------------------------------------------------------------------

  /**
   The URL sent upstream without a map_remote target is the one redirects see,
   unless the path is empty or the port is the default written out.
  */
  lemma UpstreamUrl(fm: FlowMeta)
    ensures TargetUrl(Retargeted(fm, None)) == Redirect.FullFlowUrl(fm) <==>
      fm.path != "" && (fm.port == "" || Redirect.IncludePort(fm.scheme, fm.port))
  {
    assert |TargetUrl(fm)| - |Redirect.FullFlowUrl(fm)| ==
      (if fm.port != "" && !Redirect.IncludePort(fm.scheme, fm.port) then 1 + |fm.port| else 0)
      - (if fm.path == "" then 1 else 0);
  }

  /** Under a limit a request body goes upstream whole or not at all. */
  lemma BodiesAreNotTruncated(p: Pipeline, body: Option<Body>)
    ensures TooLarge(p, body) ==> OutBody(p, body) == Ok(None)
    ensures !TooLarge(p, body) && OutBody(p, body).Ok? ==>
      && (OutBody(p, body).value.Some? <==> body.Some?)
      && (body.Some? ==> OutBody(p, body).value.value.data == body.value.data)
      && (body.Some? && p.maxRequestBody > 0 ==> |body.value.data| <= p.maxRequestBody)
  {
  }

  // ---- Content-Length --------------------------------------------------------------------------

  /** No Content-Length, or one that is the length of the body. */
  predicate LengthIsRight(r: Response) {
    && r.body.Some?
    && (Values(r.headers, "Content-Length") == [] || Values(r.headers, "Content-Length") == [Decimal(|r.body.value.data|)])
  }

  lemma OtherNames()
    ensures Canonical("Content-Type") != Canonical("Content-Length")
  {
    hide Canonical;
    AlreadyCanonical("Content-Type", 0);
    AlreadyCanonical("Content-Length", 0);
  }

  lemma LocationName()
    ensures Canonical("Location") != Canonical("Content-Length")
  {
    hide Canonical;
    AlreadyCanonical("Content-Length", 0);
    AlreadyCanonical("Location", 0);
  }

  /** A redirect carries the rewritten URL in Location, no body, and exactly two header fields. */
  lemma RedirectAnswer(rr: Redirect.RedirectResult)
    ensures var r := RedirectResponse(rr);
      && r.status == rr.statusCode && r.body == Some(Body([], false)) && r.source == "local"
      && Values(r.headers, "Location") == [rr.location] && Values(r.headers, "Content-Length") == ["0"]
      && r.headers.Keys == {Canonical("Location"), Canonical("Content-Length")}
  {
    hide Canonical;
    LocationName();
  }

  /** An inline answer carries its rule's bytes, their length, and the rule's type or else the sniffed one. */
  lemma InlineAnswer(env: Env, mr: MapRule)
    ensures var r := MappedResponse(env, mr);
      && r.status == mr.statusCode && r.body == Some(Body(mr.body, false)) && r.source == "local"
      && Values(r.headers, "Content-Length") == [Decimal(|mr.body|)]
      && (mr.contentType != "" ==> Values(r.headers, "Content-Type") == [mr.contentType])
      && (mr.contentType == "" ==> Values(r.headers, "Content-Type") == [env.sniff(mr.body)])
      && r.headers.Keys == {Canonical("Content-Type"), Canonical("Content-Length")}
  {
    hide Canonical;
    OtherNames();
  }

  /**
   A served file is streamed as it is, with one header field: the rule's type, or
   else that of the file name, or else what its first 512 bytes look like. A missing
   one is an empty 404, and one that cannot be opened, sniffed or rewound is an error.
  */
  lemma FileAnswer(env: Env, ml: MapLocal.MapLocalResult)
    ensures env.open(ml.target) == NotExist ==>
      LocalResponse(env, ml) == Ok(Response(404, map[], Some(Body([], false)), "local"))
    ensures env.open(ml.target) == OpenFails ==> LocalResponse(env, ml) == Err(OpenError)
    ensures var file := env.open(ml.target);
      file.File? && file.content.fails && |file.content.data| < 512 ==> LocalResponse(env, ml) == Err(FileReadError)
    ensures var file := env.open(ml.target);
      file.File? && (file.content.fails ==> |file.content.data| >= 512) ==>
        if !file.seekable then LocalResponse(env, ml) == Err(SeekError)
        else
          LocalResponse(env, ml).Ok? && var r := LocalResponse(env, ml).value;
          && r.status == ml.statusCode && r.body == Some(file.content) && r.source == "local"
          && r.headers.Keys == {Canonical("Content-Type")}
          && (ml.contentType != "" ==> Values(r.headers, "Content-Type") == [ml.contentType])
          && (ml.contentType == "" && env.mimeType(ml.target) != "" ==>
                Values(r.headers, "Content-Type") == [env.mimeType(ml.target)])
          && (ml.contentType == "" && env.mimeType(ml.target) == "" ==>
                var n := |file.content.data|;
                Values(r.headers, "Content-Type") == [env.sniff(file.content.data[..if n < 512 then n else 512])])
  {
    hide Canonical;
    var file := env.open(ml.target);
    if file.File? && |file.content.data| < 512 {
      assert file.content.data[..|file.content.data|] == file.content.data;
    }
  }

  lemma SetOne(h: Fields, name: string, other: string, value: string)
    ensures Values(WithSet(h, name, value), name) == [value]
    ensures Canonical(name) != Canonical(other) ==> Values(WithSet(h, name, value), other) == Values(h, other)
  {
  }

  lemma RedirectLength(rr: Redirect.RedirectResult)
    ensures LengthIsRight(RedirectResponse(rr))
  {
    hide Values, WithSet, Canonical;
    SetOne(WithSet(map[], "Location", rr.location), "Content-Length", "", "0");
    ZeroBytes(NO_BYTES);
  }

  lemma EmptyLength(status: int, source: string)
    ensures LengthIsRight(EmptyResponse(status, source))
  {
    NoValues("Content-Length");
  }

  lemma MappedLength(env: Env, rule: MappedRule, fm: FlowMeta)
    ensures Decide(env, rule, fm).Some? && Decide(env, rule, fm).value.Serve? ==>
      LengthIsRight(Decide(env, rule, fm).value.response)
  {
    hide Values, WithSet, Canonical;
    OtherNames();
    NoValues("Content-Length");
    match rule
    case Inline(mr) =>
      var ct := if mr.contentType == "" then env.sniff(mr.body) else mr.contentType;
      SetOne(WithSet(map[], "Content-Type", ct), "Content-Length", "", Decimal(|mr.body|));
    case Local(ml) =>
      forall ct: string ensures Values(WithSet(map[], "Content-Type", ct), "Content-Length") == [] {
        SetOne(map[], "Content-Type", "Content-Length", ct);
      }
  }

  lemma NoValues(name: string)
    ensures Values(map[], name) == []
  {
  }

  lemma ZeroBytes(body: Body)
    requires body.data == []
    ensures Decimal(|body.data|) == "0"
  {
  }

  /** The body stage leaves a right length, whatever it was given when it changes the body. */
  lemma BodyStageLength(rules: seq<BodyReplaceRule>, fm: FlowMeta, r: Response)
    requires LengthIsRight(r) && BodyEdited(rules, fm, r).Ok?
    ensures LengthIsRight(BodyEdited(rules, fm, r).value)
  {
    hide Canonical, Replaced, IsIdentity;
    if r.body.Some? {
      var data := Replaced(Matching(rules, fm, Get(r.headers, "Content-Type")), r.body.value.data);
      SetOne(r.headers, "Content-Length", "", Decimal(|data|));
    }
  }

  /** No response operation that Run applies names Content-Length. */
  predicate LengthIsUnnamed(edits: seq<Ops>) {
    forall i :: 0 <= i < |edits| ==> !NamesField(edits[i], Canonical("Content-Length"))
  }

  lemma {:induction false} EditsKeepLength(h: Fields, edits: seq<Ops>, v: string)
    requires LengthIsUnnamed(edits)
    requires Values(h, "Content-Length") == [] || Values(h, "Content-Length") == [v]
    ensures Values(AppliedAll(h, edits), "Content-Length") == [] || Values(AppliedAll(h, edits), "Content-Length") == [v]
    decreases |edits|
  {
    hide Canonical, Applied;
    if edits != [] {
      CanonicalTwice("Content-Length");
      SingleValue(h, edits[0], Canonical("Content-Length"), v);
      assert forall i | 0 <= i < |edits[1..]| :: edits[1..][i] == edits[i + 1];
      EditsKeepLength(Applied(h, edits[0]), edits[1..], v);
    }
  }

  lemma FinishedLength(rs: RuleSet, fm: FlowMeta, r: Response, own: Option<Ops>)
    requires LengthIsRight(r) && Finished(rs, fm, r, own).Ok?
    requires LengthIsUnnamed(Responses(rs.headers, fm) + if own.Some? then [own.value] else [])
    ensures LengthIsRight(Finished(rs, fm, r, own).value)
  {
    hide BodyEdited, Values, Canonical;
    var edits := Responses(rs.headers, fm) + if own.Some? then [own.value] else [];
    BodyStageLength(rs.bodyReplace, fm, r);
    var edited := BodyEdited(rs.bodyReplace, fm, r).value;
    ResponsesAppliedInOrder(rs.headers, fm, edited.headers);
    AppliedAllAppend(edited.headers, Responses(rs.headers, fm), if own.Some? then [own.value] else []);
    if own.Some? {
      OneApplied(AppliedAll(edited.headers, Responses(rs.headers, fm)), own.value);
    }
    EditsKeepLength(edited.headers, edits, Decimal(|edited.body.value.data|));
  }

  /** The operations of the rule that answers. */
  function OwnOps(p: Pipeline, env: Env, fm: FlowMeta): seq<Ops> {
    match FirstRedirect(p.Active().redirect, fm)
    case Some(rr) => [rr.response]
    case None =>
      match FirstMapped(env, p.Active().mapped, fm)
      case Some(Serve(_, ops)) => [ops]
      case _ => []
  }

  /** The response does not come from upstream: a rule answered, the body was too large, or upstream failed. */
  predicate BuiltHere(p: Pipeline, env: Env, fm: FlowMeta, h: Fields, body: Option<Body>) {
    AnsweredByRule(p, env, fm) ||
    var rs := p.Active();
    var r := Roundtrip(p, env, fm, RequestHeader(rs.headers, fm, h), body, FirstRemote(rs.mapRemote, fm));
    r == Ok(EmptyResponse(413, "local")) || r == Ok(EmptyResponse(502, "upstream"))
  }

  lemma {:induction false} FirstMappedDecides(env: Env, rules: seq<MappedRule>, fm: FlowMeta)
    ensures FirstMapped(env, rules, fm).Some? && FirstMapped(env, rules, fm).value.Serve? ==>
      LengthIsRight(FirstMapped(env, rules, fm).value.response)
  {
    hide LengthIsRight, Decide;
    if rules != [] {
      MappedLength(env, rules[0], fm);
      FirstMappedDecides(env, rules[1..], fm);
    }
  }

  /**
   A response built here ends with no Content-Length or with the length of its
   final body, unless a response operation that was applied sets Content-Length.
  */
  lemma LocalContentLength(p: Pipeline, env: Env, fm: FlowMeta, h: Fields, body: Option<Body>)
    ensures
      (&& BuiltHere(p, env, fm, h, body) && Outcome(p, env, fm, h, body).Ok?
       && LengthIsUnnamed(Responses(p.Active().headers, fm) + OwnOps(p, env, fm)))
      ==> LengthIsRight(Outcome(p, env, fm, h, body).value)
  {
    hide LengthIsRight, LengthIsUnnamed, Roundtrip, Finished, RedirectResponse, EmptyResponse, Responses, Decide,
      FirstRedirect, FirstMapped, FirstRemote, RequestHeader;
    var rs := p.Active();
    if BuiltHere(p, env, fm, h, body) && Outcome(p, env, fm, h, body).Ok? &&
      LengthIsUnnamed(Responses(rs.headers, fm) + OwnOps(p, env, fm))
    {
      match FirstRedirect(rs.redirect, fm)
      case Some(rr) =>
        RedirectLength(rr);
        FinishedLength(rs, fm, RedirectResponse(rr), Some(rr.response));
      case None =>
        FirstMappedDecides(env, rs.mapped, fm);
        EmptyLength(403, "local");
        EmptyLength(413, "local");
        EmptyLength(502, "upstream");
        match FirstMapped(env, rs.mapped, fm)
        case Some(Serve(response, ops)) => FinishedLength(rs, fm, response, Some(ops));
        case Some(_) =>
        case None =>
          var r := Roundtrip(p, env, fm, RequestHeader(rs.headers, fm, h), body, FirstRemote(rs.mapRemote, fm));
          FinishedLength(rs, fm, r.value, None);
    }
  }

  /** The exception is real: a rule that sets Content-Length on its own response has the last word. */
  lemma NamedLengthWins(rs: RuleSet, fm: FlowMeta, r: Response, v: string)
    requires Finished(rs, fm, r, Some(Ops([], [SetOp("Content-Length", Replace, v)]))).Ok?
    ensures var own := Ops([], [SetOp("Content-Length", Replace, v)]);
      Values(Finished(rs, fm, r, Some(own)).value.headers, "Content-Length") == [v]
  {
    hide Canonical, BodyEdited;
    var own := Ops([], [SetOp("Content-Length", Replace, v)]);
    var h := ResponseHeader(rs.headers, fm, BodyEdited(rs.bodyReplace, fm, r).value.headers);
    NormalForm(h, own, "Content-Length");
    assert own.sets[1..] == [];
  }

  /** A changed body, local or from upstream, is the fold of the matching rules, and carries its own length. */
  lemma ChangedBodyHasItsLength(rules: seq<BodyReplaceRule>, fm: FlowMeta, r: Response)
    requires r.body.Some? && IsIdentity(Values(r.headers, "Content-Encoding")) && BodyEdited(rules, fm, r).Ok?
    requires Matching(rules, fm, Get(r.headers, "Content-Type")) != []
    ensures var data := Replaced(Matching(rules, fm, Get(r.headers, "Content-Type")), r.body.value.data);
      var edited := BodyEdited(rules, fm, r).value;
      && edited.body == Some(Body(data, false))
      && Values(edited.headers, "Content-Length") == [Decimal(|data|)]
      && (forall k | k != Canonical("Content-Length") :: At(edited.headers, k) == At(r.headers, k))
  {
    hide Canonical;
    SetOne(r.headers, "Content-Length", "", "");
  }

  /** Whatever the request header rules add, what goes upstream is clean and has nothing that must not be forwarded. */
  lemma EditedHeaderIsForwardable(rules: seq<HeaderRule>, fm: FlowMeta, h: Fields)
    requires Clean(h)
    ensures var edited := RequestHeader(rules, fm, h);
      var out := Forwardable(edited);
      && Clean(out) && Forwardable(out) == out && out.Keys !! HopByHopNames()
      && (forall k :: k in out ==> k !in Listed(OrEmpty(At(edited, "Connection"))))
  {
    RequestHeaderIsClean(rules, fm, h);
    ForwardableIsExact(RequestHeader(rules, fm, h));
  }
}

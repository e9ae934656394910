/** What the client and the upstream see of a run, in terms of the rules and requests themselves. */
module RunLaws {
  import opened Prelude
  import opened Bytes
  import opened GoStrings
  import opened HttpHeader
  import opened HeaderLaws
  import opened HopByHop
  import opened Rules
  import opened RuleSet
  import opened Pipeline
  import opened PipelineLaws
  import opened Rewrite
  import MapLocal
  import MapRemote
  import Redirect

  // ---- rules whose condition fails ------------------------------------------------------

  function ConditionOf(rule: Rule): Match {
    match rule
    case HeaderEdit(hr) => hr.condition
    case Redirection(rr) => rr.condition
    case Mapped(Inline(mr)) => mr.condition
    case Mapped(Local(ml)) => ml.condition
    case Remote(mr) => mr.condition
    case BodyEdit(br) => br.condition
  }

  lemma MissedRuleChangesNothing(env: Env, fm: FlowMeta, w: Walked, rule: Rule)
    requires !Hits(ConditionOf(rule), fm)
    ensures Visit(env, fm, w, rule) == w
  {
    MatchesMeansHits(ConditionOf(rule), fm);
  }

  lemma {:induction false} WalkInTwo(env: Env, fm: FlowMeta, w: Walked, a: seq<Rule>, b: seq<Rule>)
    ensures Walk(env, fm, w, a + b) == Walk(env, fm, Walk(env, fm, w, a), b)
    decreases |a|
  {
    if a == [] {
      assert a + b == b;
    } else {
      assert (a + b)[1..] == a[1..] + b && (a + b)[0] == a[0];
      WalkInTwo(env, fm, Visit(env, fm, w, a[0]), a[1..], b);
    }
  }

  lemma WalkOne(env: Env, fm: FlowMeta, w: Walked, rule: Rule)
    ensures Walk(env, fm, w, [rule]) == Visit(env, fm, w, rule)
  {
    assert [rule][1..] == [];
  }

  /** A rule of any kind whose condition the request does not meet might as well not be in the file. */
  lemma MissedRulesCanGo(p: Pipeline, q: Pipeline, env: Env, fm: FlowMeta, h: Fields, body: Option<Body>,
                         before: seq<Rule>, rule: Rule, after: seq<Rule>)
    requires p.ruleset == Some(Staged(before + [rule] + after)) && q == p.(ruleset := Some(Staged(before + after)))
    requires !Hits(ConditionOf(rule), fm)
    ensures Outcome(p, env, fm, h, body) == Outcome(q, env, fm, h, body)
  {
    hide Staged, Walk, Outcome, Interpreted;
    var start := Walked(h, None, None, None, [], []);
    var w := Walk(env, fm, start, before);
    StagesMeanTheWalk(p, env, fm, h, body, before + [rule] + after);
    StagesMeanTheWalk(q, env, fm, h, body, before + after);
    WalkInTwo(env, fm, start, before + [rule], after);
    WalkInTwo(env, fm, start, before, [rule]);
    WalkInTwo(env, fm, start, before, after);
    WalkOne(env, fm, w, rule);
    MissedRuleChangesNothing(env, fm, w, rule);
    SameWalkSameAnswer(p, q, env, fm, h, body, before + [rule] + after, before + after);
  }

  lemma SameWalkSameAnswer(p: Pipeline, q: Pipeline, env: Env, fm: FlowMeta, h: Fields, body: Option<Body>,
                           a: seq<Rule>, b: seq<Rule>)
    requires p.maxRequestBody == q.maxRequestBody
    requires var start := Walked(h, None, None, None, [], []); Walk(env, fm, start, a) == Walk(env, fm, start, b)
    ensures Interpreted(p, env, fm, h, body, a) == Interpreted(q, env, fm, h, body, b)
  {
    hide Walk, Concluded;
  }

  /** No rule set is a rule set without rules. */
  lemma NoRuleSetMeansNoRules(p: Pipeline, env: Env, fm: FlowMeta, h: Fields, body: Option<Body>, rs: RuleSet)
    requires p.ruleset == None
    requires rs.headers == [] && rs.redirect == [] && rs.mapped == [] && rs.mapRemote == [] && rs.bodyReplace == []
    ensures Outcome(p, env, fm, h, body) == Outcome(p.(ruleset := Some(rs)), env, fm, h, body)
  {
    hide Forwardable, Applied;
  }

  // ---- who answers -------------------------------------------------------------------------

  /** A map-stage rule that leaves the request to the next one. */
  predicate Declines(env: Env, rule: MappedRule, fm: FlowMeta) {
    match rule
    case Inline(mr) => !Hits(mr.condition, fm)
    case Local(ml) => MapLocal.Resolve(ml, fm, env.stat) == Ok(None)
  }

  lemma {:induction false} SkippedRedirects(skipped: seq<Redirect.RedirectRule>, rest: seq<Redirect.RedirectRule>, fm: FlowMeta)
    requires forall i :: 0 <= i < |skipped| ==> Redirect.Resolve(skipped[i], fm) == None
    ensures FirstRedirect(skipped + rest, fm) == FirstRedirect(rest, fm)
  {
    hide Redirect.Resolve;
    if skipped == [] {
      assert skipped + rest == rest;
    } else {
      assert (skipped + rest)[1..] == skipped[1..] + rest;
      SkippedRedirects(skipped[1..], rest, fm);
    }
  }

  lemma {:induction false} SkippedMapped(env: Env, skipped: seq<MappedRule>, rest: seq<MappedRule>, fm: FlowMeta)
    requires forall i :: 0 <= i < |skipped| ==> Declines(env, skipped[i], fm)
    ensures FirstMapped(env, skipped + rest, fm) == FirstMapped(env, rest, fm)
  {
    if skipped == [] {
      assert skipped + rest == rest;
    } else {
      assert (skipped + rest)[1..] == skipped[1..] + rest;
      DeclinedMeansUndecided(env, skipped[0], fm);
      hide Decide;
      SkippedMapped(env, skipped[1..], rest, fm);
    }
  }

  lemma DeclinedMeansUndecided(env: Env, rule: MappedRule, fm: FlowMeta)
    requires Declines(env, rule, fm)
    ensures Decide(env, rule, fm) == None
  {
    if rule.Inline? {
      MatchesMeansHits(rule.inline.condition, fm);
    }
  }

  lemma {:induction false} SkippedRemotes(skipped: seq<MapRemote.MapRemoteRule>, rest: seq<MapRemote.MapRemoteRule>, fm: FlowMeta)
    requires forall i :: 0 <= i < |skipped| ==> MapRemote.Resolve(skipped[i], fm) == None
    ensures FirstRemote(skipped + rest, fm) == FirstRemote(rest, fm)
  {
    hide MapRemote.Resolve;
    if skipped == [] {
      assert skipped + rest == rest;
    } else {
      assert (skipped + rest)[1..] == skipped[1..] + rest;
      SkippedRemotes(skipped[1..], rest, fm);
    }
  }

  /** No body rule's condition holds. */
  predicate NoEdits(rs: RuleSet, fm: FlowMeta) {
    forall i :: 0 <= i < |rs.bodyReplace| ==> !Hits(rs.bodyReplace[i].condition, fm)
  }

  lemma {:induction false} NothingMatches(rules: seq<BodyReplaceRule>, fm: FlowMeta, ct: string)
    requires forall i :: 0 <= i < |rules| ==> !Hits(rules[i].condition, fm)
    ensures Matching(rules, fm, ct) == []
  {
    if rules != [] {
      MatchesMeansHits(rules[0].condition, fm);
      NothingMatches(rules[1..], fm, ct);
    }
  }

  /** The response stages keep status and source, and without body rules they edit the headers only. */
  lemma FinishedMeaning(rs: RuleSet, fm: FlowMeta, r: Response, own: Option<Ops>)
    ensures Finished(rs, fm, r, own).Ok? ==>
      Finished(rs, fm, r, own).value.status == r.status && Finished(rs, fm, r, own).value.source == r.source
    ensures r.body.Some? && !r.body.value.fails ==> Finished(rs, fm, r, own).Ok?
    ensures var edited := BodyEdited(rs.bodyReplace, fm, r);
      && (edited.Err? ==> Finished(rs, fm, r, own) == edited)
      && (edited.Ok? ==>
            var h := ResponseHeader(rs.headers, fm, edited.value.headers);
            Finished(rs, fm, r, own) == Ok(edited.value.(headers := if own.Some? then Applied(h, own.value) else h)))
    ensures NoEdits(rs, fm) ==>
      var h := ResponseHeader(rs.headers, fm, r.headers);
      Finished(rs, fm, r, own) == Ok(r.(headers := if own.Some? then Applied(h, own.value) else h))
  {
    hide Applied, ResponseHeader, IsIdentity, Replaced;
    if NoEdits(rs, fm) {
      NothingMatches(rs.bodyReplace, fm, Get(r.headers, "Content-Type"));
    }
  }

  /** The answer has this status and source, and, without body rules, these header edits and this body. */
  ghost predicate Answers(o: Result<Response, RunError>, rs: RuleSet, fm: FlowMeta, r: Response, ops: Ops) {
    && (o.Ok? ==> o.value.status == r.status && o.value.source == r.source)
    && (r.body.Some? && !r.body.value.fails ==> o.Ok?)
    && (NoEdits(rs, fm) ==> o == Ok(r.(headers := Applied(ResponseHeader(rs.headers, fm, r.headers), ops))))
  }

  /** The first redirect that rewrites the URL answers, whatever the map stage would have done. */
  lemma RedirectAnswersFirst(p: Pipeline, env: Env, fm: FlowMeta, h: Fields, body: Option<Body>,
                             skipped: seq<Redirect.RedirectRule>, rr: Redirect.RedirectRule, rest: seq<Redirect.RedirectRule>)
    requires p.ruleset.Some? && p.ruleset.value.redirect == skipped + ([rr] + rest)
    requires forall i :: 0 <= i < |skipped| ==> Redirect.Resolve(skipped[i], fm) == None
    requires Redirect.Resolve(rr, fm).Some?
    ensures var result := Redirect.Resolve(rr, fm).value;
      Answers(Outcome(p, env, fm, h, body), p.ruleset.value, fm, RedirectResponse(result), result.response)
  {
    hide Redirect.Resolve, Finished;
    SkippedRedirects(skipped, [rr] + rest, fm);
    assert ([rr] + rest)[0] == rr;
    var result := Redirect.Resolve(rr, fm).value;
    FinishedMeaning(p.ruleset.value, fm, RedirectResponse(result), Some(result.response));
  }

  /** No redirect, and the first rule of the map stage that does not decline. */
  ghost predicate Reaches(p: Pipeline, env: Env, fm: FlowMeta, skipped: seq<MappedRule>, rule: MappedRule,
                          rest: seq<MappedRule>)
  {
    && p.ruleset.Some?
    && (forall i :: 0 <= i < |p.ruleset.value.redirect| ==> Redirect.Resolve(p.ruleset.value.redirect[i], fm) == None)
    && p.ruleset.value.mapped == skipped + ([rule] + rest)
    && (forall i :: 0 <= i < |skipped| ==> Declines(env, skipped[i], fm))
  }

  lemma ReachedRuleDecides(p: Pipeline, env: Env, fm: FlowMeta, skipped: seq<MappedRule>, rule: MappedRule, rest: seq<MappedRule>)
    requires Reaches(p, env, fm, skipped, rule, rest) && Decide(env, rule, fm).Some?
    ensures FirstRedirect(p.Active().redirect, fm) == None
    ensures FirstMapped(env, p.Active().mapped, fm) == Decide(env, rule, fm)
  {
    hide Redirect.Resolve, Decide, Declines;
    SkippedRedirects(p.ruleset.value.redirect, [], fm);
    assert p.ruleset.value.redirect + [] == p.ruleset.value.redirect;
    SkippedMapped(env, skipped, [rule] + rest, fm);
    assert ([rule] + rest)[0] == rule;
  }

  /** An inline rule that is reached and whose condition holds answers with its own response. */
  lemma InlineRuleAnswers(p: Pipeline, env: Env, fm: FlowMeta, h: Fields, body: Option<Body>,
                          skipped: seq<MappedRule>, mr: MapRule, rest: seq<MappedRule>)
    requires Reaches(p, env, fm, skipped, Inline(mr), rest) && Hits(mr.condition, fm)
    ensures Answers(Outcome(p, env, fm, h, body), p.ruleset.value, fm, MappedResponse(env, mr), mr.response)
  {
    MatchesMeansHits(mr.condition, fm);
    ReachedRuleDecides(p, env, fm, skipped, Inline(mr), rest);
    hide Finished, FirstRedirect, FirstMapped;
    FinishedMeaning(p.ruleset.value, fm, MappedResponse(env, mr), Some(mr.response));
  }

  /**
   A map_local rule that is reached: a refused traversal is an empty 403 that no
   response rule sees, a missing rule path or an unreadable file is an error, and a
   file answers with the rule's response operations.
  */
  lemma FileRuleAnswers(p: Pipeline, env: Env, fm: FlowMeta, h: Fields, body: Option<Body>,
                        skipped: seq<MappedRule>, ml: MapLocal.MapLocalRule, rest: seq<MappedRule>)
    requires Reaches(p, env, fm, skipped, Local(ml), rest)
    ensures match MapLocal.Resolve(ml, fm, env.stat)
      case Err(Traversal) => Outcome(p, env, fm, h, body) == Ok(Response(403, map[], Some(Body([], false)), "local"))
      case Err(StatFailed) => Outcome(p, env, fm, h, body) == Err(StatError)
      case Ok(None) => true
      case Ok(Some(result)) =>
        match LocalResponse(env, result)
        case Ok(r) => Answers(Outcome(p, env, fm, h, body), p.ruleset.value, fm, r, result.response)
        case Err(e) => Outcome(p, env, fm, h, body) == Err(e)
  {
    var resolved := MapLocal.Resolve(ml, fm, env.stat);
    if resolved != Ok(None) {
      ReachedRuleDecides(p, env, fm, skipped, Local(ml), rest);
      hide Finished, FirstRedirect, FirstMapped, MapLocal.Resolve, LocalResponse;
      if resolved.Ok? && LocalResponse(env, resolved.value.value).Ok? {
        FinishedMeaning(p.ruleset.value, fm, LocalResponse(env, resolved.value.value).value, Some(resolved.value.value.response));
      }
    }
  }

  // ---- what is asked of the upstream ---------------------------------------------------------

  /** A name no proxy forwards, or one that a Connection line lists. */
  ghost predicate Withheld(k: string, lines: seq<string>) {
    || k == "Connection" || k == "Proxy-Connection" || k == "Keep-Alive" || k == "Te" || k == "Trailer"
    || k == "Transfer-Encoding" || k == "Upgrade" || k == "Proxy-Authenticate" || k == "Proxy-Authorization"
    || exists i :: 0 <= i < |lines| && exists part :: part in Split(lines[i], ',') && Canonical(TrimSpace(part)) == k
  }

  lemma TokensMeaning(line: string, k: string)
    ensures k in Tokens(line) <==> exists part :: part in Split(line, ',') && Canonical(TrimSpace(part)) == k
  {
    hide Canonical;
    var parts := Split(line, ',');
    if part :| part in parts && Canonical(TrimSpace(part)) == k {
      var i :| 0 <= i < |parts| && parts[i] == part;
    }
  }

  lemma {:induction false} ListedMeaning(lines: seq<string>, k: string)
    ensures k in Listed(lines) <==>
      exists i :: 0 <= i < |lines| && exists part :: part in Split(lines[i], ',') && Canonical(TrimSpace(part)) == k
  {
    hide Canonical, Tokens;
    if lines != [] {
      TokensMeaning(lines[0], k);
      ListedMeaning(lines[1..], k);
      assert forall i | 0 <= i < |lines[1..]| :: lines[1..][i] == lines[i + 1];
      assert forall i | 0 < i < |lines| :: lines[i] == lines[1..][i - 1];
    }
  }

  /** The Connection lines of a header. */
  function ConnectionLines(h: Fields): seq<string> {
    if "Connection" in h then h["Connection"] else []
  }

  /** to is what of the header from may be forwarded: exactly the fields that are not withheld, unchanged. */
  ghost predicate ForwardedFrom(to: Fields, from: Fields) {
    forall k :: At(to, k) == if Withheld(k, ConnectionLines(from)) then None else At(from, k)
  }

  lemma ForwardableMeaning(h: Fields, to: Fields)
    ensures ForwardedFrom(to, h) <==> to == Forwardable(h)
  {
    ForwardableIsExact(h);
    var lines := ConnectionLines(h);
    forall k ensures Withheld(k, lines) <==> k in HopByHopNames() || k in Listed(lines) {
      ListedMeaning(lines, k);
    }
    hide Withheld, Listed, HopByHopNames, Forwardable;
    if ForwardedFrom(to, h) {
      forall k ensures At(to, k) == At(Forwardable(h), k) {
      }
      SameFields(to, Forwardable(h));
    }
  }

  function UrlText(scheme: string, host: string, port: string, path: string, query: string): string {
    scheme + "://" + host + (if port == "" then "" else ":" + port) + path + (if query == "" then "" else "?" + query)
  }

  /** The URL of the upstream request; a map_remote target gives port and query, and its other parts unless they are empty. */
  predicate AskedUrl(url: string, fm: FlowMeta, target: Option<MapRemote.Target>) {
    match target
    case None => url == UrlText(fm.scheme, fm.host, fm.port, fm.path, fm.rawQuery)
    case Some(t) =>
      url == UrlText(
        if t.scheme == "" then fm.scheme else t.scheme,
        if t.host == "" then fm.host else t.host,
        t.port,
        if t.path == "" then fm.path else t.path,
        t.rawQuery)
  }

  lemma AskedUrlMeaning(url: string, fm: FlowMeta, target: Option<MapRemote.Target>)
    ensures AskedUrl(url, fm, target) <==> url == TargetUrl(Retargeted(fm, target))
  {
    UrlTextMeaning(Retargeted(fm, target));
  }

  lemma UrlTextMeaning(fm: FlowMeta)
    ensures TargetUrl(fm) == UrlText(fm.scheme, fm.host, fm.port, fm.path, fm.rawQuery)
  {
    var start := fm.scheme + "://";
    if fm.port == "" {
      assert start + fm.host + "" == start + fm.host;
    } else {
      assert start + (fm.host + ":" + fm.port) == start + fm.host + (":" + fm.port);
    }
    var url := start + (if fm.port != "" then fm.host + ":" + fm.port else fm.host) + fm.path;
    assert url + "?" + fm.rawQuery == url + ("?" + fm.rawQuery) && url + "" == url;
  }

  /** A body goes upstream whole: as the stream it is without a limit, as the bytes read within one. */
  predicate AskedBody(sent: Option<Body>, p: Pipeline, body: Option<Body>) {
    match body
    case None => sent == None
    case Some(b) =>
      if p.maxRequestBody <= 0 then sent == body
      else |b.data| <= p.maxRequestBody && !b.fails && sent == Some(Body(b.data, false))
  }

  /** The request that must reach the upstream, for a request header copied as sent. */
  ghost predicate Asked(out: OutRequest, p: Pipeline, fm: FlowMeta, sent: Fields, body: Option<Body>,
                        target: Option<MapRemote.Target>)
  {
    && out.verb == fm.verb
    && AskedUrl(out.url, fm, target)
    && ForwardedFrom(out.headers, sent)
    && AskedBody(out.body, p, body)
  }

  /** No redirect and no rule of the map stage answers, and target is that of the first map_remote rule that names one. */
  ghost predicate GoesUpstream(p: Pipeline, env: Env, fm: FlowMeta, target: Option<MapRemote.Target>) {
    var rs := p.Active();
    && (forall i :: 0 <= i < |rs.redirect| ==> Redirect.Resolve(rs.redirect[i], fm) == None)
    && (forall i :: 0 <= i < |rs.mapped| ==> Declines(env, rs.mapped[i], fm))
    && (target == None ==> forall i :: 0 <= i < |rs.mapRemote| ==> MapRemote.Resolve(rs.mapRemote[i], fm) == None)
    && (target.Some? ==> exists i :: FirstTarget(rs.mapRemote, i, fm, target))
  }

  /** Rule i names the target and no rule before it names one. */
  ghost predicate FirstTarget(rules: seq<MapRemote.MapRemoteRule>, i: int, fm: FlowMeta, target: Option<MapRemote.Target>) {
    && 0 <= i < |rules|
    && MapRemote.Resolve(rules[i], fm) == target
    && (forall j :: 0 <= j < i ==> MapRemote.Resolve(rules[j], fm) == None)
  }

  lemma FirstTargetMeaning(rules: seq<MapRemote.MapRemoteRule>, i: int, fm: FlowMeta, target: Option<MapRemote.Target>)
    requires FirstTarget(rules, i, fm, target) && target.Some?
    ensures FirstRemote(rules, fm) == target
  {
    hide MapRemote.Resolve;
    SkippedRemotes(rules[..i], rules[i..], fm);
    assert rules == rules[..i] + rules[i..];
  }

  lemma UpstreamRouting(p: Pipeline, env: Env, fm: FlowMeta, target: Option<MapRemote.Target>)
    requires GoesUpstream(p, env, fm, target)
    ensures FirstRedirect(p.Active().redirect, fm) == None && FirstMapped(env, p.Active().mapped, fm) == None
    ensures FirstRemote(p.Active().mapRemote, fm) == target
  {
    hide Redirect.Resolve, MapRemote.Resolve, Decide, Declines;
    var rs := p.Active();
    SkippedRedirects(rs.redirect, [], fm);
    SkippedMapped(env, rs.mapped, [], fm);
    assert rs.redirect + [] == rs.redirect && rs.mapped + [] == rs.mapped;
    if target == None {
      SkippedRemotes(rs.mapRemote, [], fm);
      assert rs.mapRemote + [] == rs.mapRemote;
    } else {
      var i :| FirstTarget(rs.mapRemote, i, fm, target);
      FirstTargetMeaning(rs.mapRemote, i, fm, target);
    }
  }

  lemma RoundtripAsks(p: Pipeline, env: Env, fm: FlowMeta, sent: Fields, body: Option<Body>, target: Option<MapRemote.Target>,
                      out: OutRequest)
    requires Asked(out, p, fm, sent, body, target)
    ensures Roundtrip(p, env, fm, sent, body, target) == Sent(env, out)
  {
    hide AskedUrl, ForwardedFrom, Forwardable, TargetUrl, Retargeted;
    AskedUrlMeaning(out.url, fm, target);
    ForwardableMeaning(sent, out.headers);
  }

  /**
   When no rule answers, exactly this request is asked of the upstream: the method
   and the whole body of the client, the URL of the flow or its map_remote target, and
   every header field that is not withheld, unchanged. Its reply comes back with its
   status and body, without its withheld fields, through the response stages; a
   failing transport is an empty 502.
  */
  lemma UpstreamIsAskedExactly(p: Pipeline, env: Env, fm: FlowMeta, sent: Fields, body: Option<Body>,
                               target: Option<MapRemote.Target>, out: OutRequest, answered: Fields)
    requires GoesUpstream(p, env, fm, target) && Asked(out, p, fm, sent, body, target)
    requires env.upstream(out).Some? ==> ForwardedFrom(answered, env.upstream(out).value.headers)
    ensures OutcomeOf(p, env, fm, sent, body) ==
      if !env.buildable(out.verb, out.url) then Err(BuildError)
      else if env.upstream(out) == None then
        Finished(p.Active(), fm, Response(502, map[], Some(Body([], false)), "upstream"), None)
      else
        var reply := env.upstream(out).value;
        Finished(p.Active(), fm, Response(reply.status, answered, reply.body, "upstream"), None)
  {
    hide Asked, ForwardedFrom, Forwardable, Finished, FirstRedirect, FirstMapped, FirstRemote, GoesUpstream;
    UpstreamRouting(p, env, fm, target);
    RoundtripAsks(p, env, fm, sent, body, target, out);
    if env.upstream(out).Some? {
      ForwardableMeaning(env.upstream(out).value.headers, answered);
    }
  }

  /** A body over the limit is an empty 413 made here, and a request body that cannot be read is an error. */
  lemma UpstreamIsNotAsked(p: Pipeline, env: Env, fm: FlowMeta, sent: Fields, b: Body, target: Option<MapRemote.Target>)
    requires GoesUpstream(p, env, fm, target) && p.maxRequestBody > 0
    ensures |b.data| > p.maxRequestBody ==>
      OutcomeOf(p, env, fm, sent, Some(b)) ==
        Finished(p.Active(), fm, Response(413, map[], Some(Body([], false)), "local"), None)
    ensures |b.data| <= p.maxRequestBody && b.fails ==> OutcomeOf(p, env, fm, sent, Some(b)) == Err(RequestBodyError)
  {
    hide Finished, FirstRedirect, FirstMapped, FirstRemote, GoesUpstream, Forwardable;
    UpstreamRouting(p, env, fm, target);
  }

  // ---- what the upstream can tell apart ---------------------------------------------------------

  /** A clean header with nothing in it that must be withheld. */
  ghost predicate Presentable(h: Fields, lines: seq<string>) {
    Clean(h) && forall k :: k in h ==> !Withheld(k, lines)
  }

  lemma {:induction false} SameMapStage(env: Env, other: Env, rules: seq<MappedRule>, fm: FlowMeta)
    requires other == env.(upstream := other.upstream)
    ensures FirstMapped(env, rules, fm) == FirstMapped(other, rules, fm)
  {
    if rules != [] {
      SameDecision(env, other, rules[0], fm);
      hide Decide;
      SameMapStage(env, other, rules[1..], fm);
    }
  }

  lemma SameDecision(env: Env, other: Env, rule: MappedRule, fm: FlowMeta)
    requires other == env.(upstream := other.upstream)
    ensures Decide(env, rule, fm) == Decide(other, rule, fm)
  {
    hide MapLocal.Resolve;
  }

  /**
   Two upstreams that agree on every presentable request cannot be told apart:
   no run asks anything else, whatever the request header rules added.
  */
  lemma UpstreamHeadersAreForwardable(p: Pipeline, env: Env, other: Env, fm: FlowMeta, sent: Fields, body: Option<Body>)
    requires Clean(sent) && other == env.(upstream := other.upstream)
    requires forall out: OutRequest ::
      Presentable(out.headers, ConnectionLines(sent)) ==> env.upstream(out) == other.upstream(out)
    ensures OutcomeOf(p, env, fm, sent, body) == OutcomeOf(p, other, fm, sent, body)
  {
    var forwarded := Forwardable(sent);
    ForwardableMeaning(sent, forwarded);
    hide Withheld, Forwardable, Finished, FirstRedirect, FirstMapped, FirstRemote, TargetUrl, Retargeted, Canonical;
    assert Presentable(forwarded, ConnectionLines(sent)) by {
      forall k | k in forwarded ensures Canonical(k) == k && forwarded[k] != [] && !Withheld(k, ConnectionLines(sent)) {
        assert At(forwarded, k).Some?;
        assert At(forwarded, k) == At(sent, k);
      }
    }
    SameMapStage(env, other, p.Active().mapped, fm);
  }

  /** The same for a whole run on a request with clean headers. */
  lemma RunAsksForwardableRequests(p: Pipeline, env: Env, other: Env, fm: FlowMeta, h: Fields, body: Option<Body>)
    requires Clean(h) && other == env.(upstream := other.upstream)
    requires forall out: OutRequest ::
      Presentable(out.headers, ConnectionLines(RequestHeader(p.Active().headers, fm, h))) ==>
        env.upstream(out) == other.upstream(out)
    ensures Outcome(p, env, fm, h, body) == Outcome(p, other, fm, h, body)
  {
    RequestHeaderIsClean(p.Active().headers, fm, h);
    hide OutcomeOf, Presentable, Clean;
    UpstreamHeadersAreForwardable(p, env, other, fm, RequestHeader(p.Active().headers, fm, h), body);
  }

  // ---- header and body rules, one by one -----------------------------------------------------------

  /**
   Header rules apply in file order, each when its condition holds: its request
   operations going out, its response operations coming back.
  */
  lemma {:induction false} HeaderRulesInOrder(rules: seq<HeaderRule>, hr: HeaderRule, fm: FlowMeta, h: Fields)
    ensures RequestHeader([], fm, h) == h && ResponseHeader([], fm, h) == h
    ensures RequestHeader(rules + [hr], fm, h) ==
      if Hits(hr.condition, fm) then Applied(RequestHeader(rules, fm, h), hr.request) else RequestHeader(rules, fm, h)
    ensures ResponseHeader(rules + [hr], fm, h) ==
      if Hits(hr.condition, fm) then Applied(ResponseHeader(rules, fm, h), hr.response) else ResponseHeader(rules, fm, h)
    decreases |rules|
  {
    hide Applied;
    if rules == [] {
      assert rules + [hr] == [hr] && [hr][1..] == [];
      MatchesMeansHits(hr.condition, fm);
    } else {
      assert (rules + [hr])[1..] == rules[1..] + [hr] && (rules + [hr])[0] == rules[0];
      if rules[0].condition.Matches(fm) {
        HeaderRulesInOrder(rules[1..], hr, fm, Applied(h, rules[0].request));
        HeaderRulesInOrder(rules[1..], hr, fm, Applied(h, rules[0].response));
      } else {
        HeaderRulesInOrder(rules[1..], hr, fm, h);
      }
    }
  }

  /** A body rule takes part when its condition holds and its content type expression, if any, finds a match. */
  lemma {:induction false} BodyRulesThatMatch(before: seq<BodyReplaceRule>, br: BodyReplaceRule, after: seq<BodyReplaceRule>,
                                              fm: FlowMeta, ct: string)
    ensures Matching([], fm, ct) == []
    ensures Matching(before + [br] + after, fm, ct) ==
      Matching(before, fm, ct)
      + (if Hits(br.condition, fm) && (br.contentType.Some? ==> br.contentType.value.find(ct) != None) then [br] else [])
      + Matching(after, fm, ct)
  {
    if before == [] {
      assert before + [br] + after == [br] + after && ([br] + after)[1..] == after;
      MatchesMeansHits(br.condition, fm);
    } else {
      assert (before + [br] + after)[1..] == before[1..] + [br] + after && (before + [br] + after)[0] == before[0];
      BodyRulesThatMatch(before[1..], br, after, fm, ct);
    }
  }

  /** Matching body rules are applied in file order, each to what the one before it left. */
  lemma {:induction false} BodyEditsInOrder(rules: seq<BodyReplaceRule>, br: BodyReplaceRule, data: seq<byte>)
    ensures Replaced([], data) == data
    ensures Replaced(rules + [br], data) == br.Apply(Replaced(rules, data))
    decreases |rules|
  {
    if rules == [] {
      assert rules + [br] == [br] && [br][1..] == [];
    } else {
      assert (rules + [br])[1..] == rules[1..] + [br] && (rules + [br])[0] == rules[0];
      BodyEditsInOrder(rules[1..], br, rules[0].Apply(data));
    }
  }

  /** A literal rule puts its replacement wherever the leftmost cut of the body has the search bytes; a pattern rule rewrites. */
  lemma BodyEditMeaning(br: BodyReplaceRule, data: seq<byte>, pieces: seq<seq<byte>>)
    ensures br.search.Literal? && IsCut(pieces, data, br.search.text) ==> br.Apply(data) == Glue(pieces, br.replace)
    ensures br.search.Pattern? ==> br.Apply(data) == br.search.rewrite(data)
  {
    if br.search.Literal? && IsCut(pieces, data, br.search.text) {
      ReplaceAllMeaning(data, br.search.text, br.replace, pieces);
    }
  }

  /** A body is edited only when every listed coding, between commas and white space, is empty or identity in any letter case. */
  lemma CodedBodiesAreLeftAlone(rules: seq<BodyReplaceRule>, fm: FlowMeta, r: Response)
    ensures IsIdentity(Values(r.headers, "Content-Encoding")) <==>
      forall i :: 0 <= i < |Values(r.headers, "Content-Encoding")| ==>
        forall part :: part in Split(Values(r.headers, "Content-Encoding")[i], ',') ==>
          TrimSpace(part) == "" || SameLetters(TrimSpace(part), "identity")
    ensures !IsIdentity(Values(r.headers, "Content-Encoding")) || r.body == None ==> BodyEdited(rules, fm, r) == Ok(r)
  {
    forall part: string ensures IsIdentityToken(part) <==> TrimSpace(part) == "" || SameLetters(TrimSpace(part), "identity") {
      IdentityTokenMeaning(part);
    }
  }

  lemma IdentityTokenMeaning(part: string)
    ensures IsIdentityToken(part) <==> TrimSpace(part) == "" || SameLetters(TrimSpace(part), "identity")
  {
    hide TrimSpace;
    ToLowerMeaning(TrimSpace(part), "identity");
    assert ToLower("identity") == "identity";
  }
}

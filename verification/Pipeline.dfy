/** internal/proxy/pipeline.go: what Run does to a request and its response. */
module Pipeline {
  import opened Prelude
  import opened Bytes
  import opened GoStrings
  import opened HttpHeader
  import opened HeaderLaws
  import opened HopByHop
  import opened Rules
  import opened RuleSet
  import Redirect
  import MapLocal
  import MapRemote

  // ---- the world around the pipeline ----------------------------------------------------

  /** A stream: the bytes it yields, and whether an error follows them instead of the end. */
  datatype Body = Body(data: seq<byte>, fails: bool)

  /** What os.Open gives. A directory opens, and fails at the first read. */
  datatype Opened = NotExist | OpenFails | File(content: Body, seekable: bool)

  datatype OutRequest = OutRequest(verb: string, url: string, headers: Fields, body: Option<Body>)

  datatype Reply = Reply(status: int, headers: Fields, body: Option<Body>)

  /**
   The file system, the media type tables, request construction and the upstream
   transport; mimeType is the type of a file name and empty when it has none.
  */
  datatype Env = Env(
    stat: MapLocal.Stat,
    open: string -> Opened,
    mimeType: string -> string,
    sniff: seq<byte> -> string,
    buildable: (string, string) -> bool,
    upstream: OutRequest -> Option<Reply>)

  datatype RunError =
    StatError | OpenError | FileReadError | SeekError | RequestBodyError | BuildError | ResponseBodyError

  /** No rule set means no rules; a limit that is not positive means no limit. */
  datatype Pipeline = Pipeline(ruleset: Option<RuleSet>, maxRequestBody: int) {
    function Active(): RuleSet {
      if ruleset.Some? then ruleset.value else EMPTY
    }
  }

  class FlowContext {
    const meta: FlowMeta
    const header: Header
    const body: Option<Body>

    constructor (meta: FlowMeta, header: Header, body: Option<Body>)
      ensures this.meta == meta && this.header == header && this.body == body
    {
      this.meta, this.header, this.body := meta, header, body;
    }
  }

  /** The value of a ResponseResult. */
  datatype Response = Response(status: int, headers: Fields, body: Option<Body>, source: string)

  class ResponseResult {
    var status: int
    const headers: Header
    var body: Option<Body>
    var source: string

    constructor (status: int, headers: Header, body: Option<Body>, source: string)
      ensures this.status == status && this.headers == headers && this.body == body && this.source == source
    {
      this.status, this.headers, this.body, this.source := status, headers, body, source;
    }

    ghost function View(): Response
      reads this, headers
    {
      Response(status, headers.m, body, source)
    }
  }

  // ---- locally built responses -----------------------------------------------------------

  const NO_BYTES := Body([], false)

  function EmptyResponse(status: int, source: string): Response {
    Response(status, map[], Some(NO_BYTES), source)
  }

  method EmptyResult(status: int, source: string) returns (r: ResponseResult)
    ensures fresh(r) && fresh(r.headers) && r.View() == EmptyResponse(status, source)
  {
    var h := new Header(map[]);
    r := new ResponseResult(status, h, Some(NO_BYTES), source);
  }

  function MappedResponse(env: Env, mr: MapRule): Response {
    var ct := if mr.contentType == "" then env.sniff(mr.body) else mr.contentType;
    var h := WithSet(WithSet(map[], "Content-Type", ct), "Content-Length", Decimal(|mr.body|));
    Response(mr.statusCode, h, Some(Body(mr.body, false)), "local")
  }

  method ServeMapped(env: Env, mr: MapRule) returns (r: ResponseResult)
    ensures fresh(r) && fresh(r.headers) && r.View() == MappedResponse(env, mr)
  {
    var ct := mr.contentType;
    if ct == "" {
      ct := env.sniff(mr.body);
    }
    var h := new Header(map[]);
    h.Set("Content-Type", ct);
    h.Set("Content-Length", Decimal(|mr.body|));
    r := new ResponseResult(mr.statusCode, h, Some(Body(mr.body, false)), "local");
  }

  function RedirectResponse(rr: Redirect.RedirectResult): Response {
    var h := WithSet(WithSet(map[], "Location", rr.location), "Content-Length", "0");
    Response(rr.statusCode, h, Some(NO_BYTES), "local")
  }

  method ServeRedirect(rr: Redirect.RedirectResult) returns (r: ResponseResult)
    ensures fresh(r) && fresh(r.headers) && r.View() == RedirectResponse(rr)
  {
    var h := new Header(map[]);
    h.Set("Location", rr.location);
    h.Set("Content-Length", "0");
    r := new ResponseResult(rr.statusCode, h, Some(NO_BYTES), "local");
  }

  const SNIFF_BYTES := 512

  /** DetectContentType of internal/rules/maplocal.go. */
  function FileType(env: Env, path: string, override: string, start: seq<byte>): string {
    if override != "" then override
    else if env.mimeType(path) != "" then env.mimeType(path)
    else env.sniff(start)
  }

  function LocalResponse(env: Env, ml: MapLocal.MapLocalResult): Result<Response, RunError> {
    match env.open(ml.target)
    case NotExist => Ok(EmptyResponse(404, "local"))
    case OpenFails => Err(OpenError)
    case File(content, seekable) =>
      if |content.data| < SNIFF_BYTES && content.fails then Err(FileReadError)
      else if !seekable then Err(SeekError)
      else
        var ct := FileType(env, ml.target, ml.contentType, Take(SNIFF_BYTES, content.data));
        Ok(Response(ml.statusCode, WithSet(map[], "Content-Type", ct), Some(content), "local"))
  }

  method ServeLocal(env: Env, ml: MapLocal.MapLocalResult) returns (r: Result<ResponseResult, RunError>)
    ensures Shows(r, LocalResponse(env, ml))
    ensures r.Ok? ==> fresh(r.value) && fresh(r.value.headers)
  {
    match env.open(ml.target)
    case NotExist =>
      var empty := EmptyResult(404, "local");
      r := Ok(empty);
    case OpenFails =>
      r := Err(OpenError);
    case File(content, seekable) =>
      var snip := Take(SNIFF_BYTES, content.data);
      if |snip| < SNIFF_BYTES && content.fails {
        return Err(FileReadError);
      }
      if !seekable {
        return Err(SeekError);
      }
      var h := new Header(map[]);
      h.Set("Content-Type", FileType(env, ml.target, ml.contentType, snip));
      var result := new ResponseResult(ml.statusCode, h, Some(content), "local");
      r := Ok(result);
  }

  /** The result object, or the error, stands for the given value. */
  ghost predicate Shows(r: Result<ResponseResult, RunError>, s: Result<Response, RunError>)
    reads if r.Ok? then {r.value, r.value.headers} else {}
  {
    match r
    case Ok(result) => s == Ok(result.View())
    case Err(e) => s == Err(e)
  }

  // ---- the request upstream ----------------------------------------------------------------

  /** What may go upstream under a limit: the whole body, or None when it is longer than that. */
  function LimitedBody(body: Body, max: nat): Result<Option<seq<byte>>, RunError> {
    if |body.data| > max then Ok(None)
    else if body.fails then Err(RequestBodyError)
    else Ok(Some(body.data))
  }

  /** Reading all of a body through io.LimitReader; an error counts only when it comes within the limit. */
  function ReadAtMost(n: nat, body: Body): Option<seq<byte>> {
    if |body.data| < n && body.fails then None else Some(Take(n, body.data))
  }

  /** readRequestBody: one byte beyond the limit is enough to tell. */
  method ReadRequestBody(body: Body, max: nat) returns (r: Result<Option<seq<byte>>, RunError>)
    ensures r == LimitedBody(body, max)
  {
    var data := ReadAtMost(max + 1, body);
    if data.None? {
      return Err(RequestBodyError);
    }
    if |data.value| > max {
      return Ok(None);
    }
    r := Ok(data);
  }

  /** The parts of the request line, after a map_remote target. */
  function Retargeted(fm: FlowMeta, target: Option<MapRemote.Target>): FlowMeta {
    match target
    case None => fm
    case Some(t) => fm.(
      scheme := if t.scheme != "" then t.scheme else fm.scheme,
      host := if t.host != "" then t.host else fm.host,
      port := t.port,
      path := if t.path != "" then t.path else fm.path,
      rawQuery := t.rawQuery)
  }

  function TargetUrl(fm: FlowMeta): string {
    var targetHost := if fm.port != "" then fm.host + ":" + fm.port else fm.host;
    var url := fm.scheme + "://" + targetHost + fm.path;
    if fm.rawQuery != "" then url + "?" + fm.rawQuery else url
  }

  /** The body sent upstream, and whether there is one to send. */
  function OutBody(p: Pipeline, body: Option<Body>): Result<Option<Body>, RunError> {
    if body.None? || p.maxRequestBody <= 0 then Ok(body)
    else
      var data :- LimitedBody(body.value, p.maxRequestBody);
      Ok(if data.None? then None else Some(Body(data.value, false)))
  }

  predicate TooLarge(p: Pipeline, body: Option<Body>) {
    body.Some? && 0 < p.maxRequestBody < |body.value.data|
  }

  function Sent(env: Env, out: OutRequest): Result<Response, RunError> {
    if !env.buildable(out.verb, out.url) then Err(BuildError)
    else
      match env.upstream(out)
      case None => Ok(EmptyResponse(502, "upstream"))
      case Some(reply) => Ok(Response(reply.status, Forwardable(reply.headers), reply.body, "upstream"))
  }

  function Roundtrip(p: Pipeline, env: Env, fm: FlowMeta, h: Fields, body: Option<Body>, target: Option<MapRemote.Target>)
    : Result<Response, RunError>
  {
    if TooLarge(p, body) then Ok(EmptyResponse(413, "local"))
    else
      var out :- OutBody(p, body);
      Sent(env, OutRequest(fm.verb, TargetUrl(Retargeted(fm, target)), Forwardable(h), out))
  }

  /** sent is the header copy made for the upstream request; for a clean header it is the header itself. */
  method DoRoundtrip(p: Pipeline, env: Env, fc: FlowContext, target: Option<MapRemote.Target>)
    returns (r: Result<ResponseResult, RunError>, ghost sent: Fields)
    ensures CopyOf(fc.header.m, fc.header.m.Keys, sent)
    ensures Shows(r, Roundtrip(p, env, fc.meta, sent, fc.body, target))
    ensures r.Ok? ==> fresh(r.value) && fresh(r.value.headers)
  {
    sent := SomeCopy(fc.header.m);
    var url := TargetUrl(Retargeted(fc.meta, target));
    var body := fc.body;
    if fc.body.Some? && p.maxRequestBody > 0 {
      var read := ReadRequestBody(fc.body.value, p.maxRequestBody);
      if read.Err? {
        r := Err(read.error);
        return;
      }
      if read.value.None? {
        var tooLarge := EmptyResult(413, "local");
        r := Ok(tooLarge);
        return;
      }
      body := Some(Body(read.value.value, false));
    }
    if !env.buildable(fc.meta.verb, url) {
      r := Err(BuildError);
      return;
    }
    var out := CopyHeader(fc.header.m);
    sent := out.m;
    RemoveHopByHop(out);
    var reply := env.upstream(OutRequest(fc.meta.verb, url, out.m, body));
    if reply.None? {
      var badGateway := EmptyResult(502, "upstream");
      r := Ok(badGateway);
      return;
    }
    var h := new Header(reply.value.headers);
    RemoveHopByHop(h);
    var result := new ResponseResult(reply.value.status, h, reply.value.body, "upstream");
    r := Ok(result);
  }

  // ---- choosing who answers ------------------------------------------------------------------

  /** The first redirect rule that rewrites the URL. */
  function FirstRedirect(rules: seq<Redirect.RedirectRule>, fm: FlowMeta): Option<Redirect.RedirectResult> {
    if rules == [] then None
    else if Redirect.Resolve(rules[0], fm).Some? then Redirect.Resolve(rules[0], fm)
    else FirstRedirect(rules[1..], fm)
  }

  method FindRedirect(rules: seq<Redirect.RedirectRule>, fm: FlowMeta) returns (r: Option<Redirect.RedirectResult>)
    ensures r == FirstRedirect(rules, fm)
  {
    for i := 0 to |rules|
      invariant FirstRedirect(rules, fm) == FirstRedirect(rules[i..], fm)
    {
      r := Redirect.Resolve(rules[i], fm);
      if r.Some? {
        return;
      }
    }
    r := None;
  }

  function FirstRemote(rules: seq<MapRemote.MapRemoteRule>, fm: FlowMeta): Option<MapRemote.Target> {
    if rules == [] then None
    else if MapRemote.Resolve(rules[0], fm).Some? then MapRemote.Resolve(rules[0], fm)
    else FirstRemote(rules[1..], fm)
  }

  method FindRemote(rules: seq<MapRemote.MapRemoteRule>, fm: FlowMeta) returns (r: Option<MapRemote.Target>)
    ensures r == FirstRemote(rules, fm)
  {
    for i := 0 to |rules|
      invariant FirstRemote(rules, fm) == FirstRemote(rules[i..], fm)
    {
      r := MapRemote.Resolve(rules[i], fm);
      if r.Some? {
        return;
      }
    }
    r := None;
  }

  /** How a rule of the map stage ends the search: with a response, with 403 at once, or with an error. */
  datatype Decision = Serve(response: Response, ops: Ops) | Forbid | Fail(error: RunError)

  function Decide(env: Env, rule: MappedRule, fm: FlowMeta): Option<Decision> {
    match rule
    case Inline(mr) => if mr.condition.Matches(fm) then Some(Serve(MappedResponse(env, mr), mr.response)) else None
    case Local(ml) =>
      match MapLocal.Resolve(ml, fm, env.stat)
      case Ok(None) => None
      case Err(Traversal) => Some(Forbid)
      case Err(StatFailed) => Some(Fail(StatError))
      case Ok(Some(result)) =>
        match LocalResponse(env, result)
        case Ok(response) => Some(Serve(response, result.response))
        case Err(e) => Some(Fail(e))
  }

  function FirstMapped(env: Env, rules: seq<MappedRule>, fm: FlowMeta): Option<Decision> {
    if rules == [] then None
    else if Decide(env, rules[0], fm).Some? then Decide(env, rules[0], fm)
    else FirstMapped(env, rules[1..], fm)
  }

  /** What the map loop leaves: nothing, a result with its rule's operations, a refusal, or an error. */
  datatype MapOutcome = NoMatch | Served(result: ResponseResult, ops: Ops) | Refused | Failed(error: RunError)

  ghost predicate OutcomeShows(o: MapOutcome, d: Option<Decision>)
    reads if o.Served? then {o.result, o.result.headers} else {}
  {
    match o
    case NoMatch => d == None
    case Served(result, ops) => d == Some(Serve(result.View(), ops))
    case Refused => d == Some(Forbid)
    case Failed(e) => d == Some(Fail(e))
  }

  method DecideMapped(env: Env, rule: MappedRule, fm: FlowMeta) returns (o: MapOutcome)
    ensures OutcomeShows(o, Decide(env, rule, fm))
    ensures o.Served? ==> fresh(o.result) && fresh(o.result.headers)
  {
    match rule
    case Local(ml) =>
      var resolved := MapLocal.Resolve(ml, fm, env.stat);
      if resolved.Err? {
        return if resolved.error == MapLocal.Traversal then Refused else Failed(StatError);
      }
      if resolved.value.None? {
        return NoMatch;
      }
      var served := ServeLocal(env, resolved.value.value);
      o := if served.Err? then Failed(served.error) else Served(served.value, resolved.value.value.response);
    case Inline(mr) =>
      if !mr.condition.Matches(fm) {
        return NoMatch;
      }
      var result := ServeMapped(env, mr);
      o := Served(result, mr.response);
  }

  method FindMapped(env: Env, rules: seq<MappedRule>, fm: FlowMeta) returns (o: MapOutcome)
    ensures OutcomeShows(o, FirstMapped(env, rules, fm))
    ensures o.Served? ==> fresh(o.result) && fresh(o.result.headers)
  {
    for i := 0 to |rules|
      invariant FirstMapped(env, rules, fm) == FirstMapped(env, rules[i..], fm)
    {
      o := DecideMapped(env, rules[i], fm);
      if !o.NoMatch? {
        return;
      }
    }
    o := NoMatch;
  }

  // ---- header rules -----------------------------------------------------------------------------

  function RequestHeader(rules: seq<HeaderRule>, fm: FlowMeta, h: Fields): Fields {
    if rules == [] then h
    else RequestHeader(rules[1..], fm, if rules[0].condition.Matches(fm) then Applied(h, rules[0].request) else h)
  }

  function ResponseHeader(rules: seq<HeaderRule>, fm: FlowMeta, h: Fields): Fields {
    if rules == [] then h
    else ResponseHeader(rules[1..], fm, if rules[0].condition.Matches(fm) then Applied(h, rules[0].response) else h)
  }

  method ApplyRequestRules(rules: seq<HeaderRule>, fm: FlowMeta, h: Header)
    modifies h
    ensures h.m == RequestHeader(rules, fm, old(h.m))
  {
    for i := 0 to |rules|
      invariant RequestHeader(rules, fm, old(h.m)) == RequestHeader(rules[i..], fm, h.m)
    {
      if rules[i].condition.Matches(fm) {
        Apply(h, rules[i].request);
      }
    }
  }

  method ApplyResponseRules(rules: seq<HeaderRule>, fm: FlowMeta, h: Header)
    modifies h
    ensures h.m == ResponseHeader(rules, fm, old(h.m))
  {
    for i := 0 to |rules|
      invariant ResponseHeader(rules, fm, old(h.m)) == ResponseHeader(rules[i..], fm, h.m)
    {
      if rules[i].condition.Matches(fm) {
        Apply(h, rules[i].response);
      }
    }
  }

  lemma {:induction false} RequestHeaderIsClean(rules: seq<HeaderRule>, fm: FlowMeta, h: Fields)
    requires Clean(h)
    ensures Clean(RequestHeader(rules, fm, h))
    decreases |rules|
  {
    if rules != [] {
      ApplyKeepsClean(h, rules[0].request);
      RequestHeaderIsClean(rules[1..], fm, if rules[0].condition.Matches(fm) then Applied(h, rules[0].request) else h);
    }
  }

  // ---- the body stage ----------------------------------------------------------------------------

  /** A coding that leaves the body as it is; an empty token is ignored. */
  predicate IsIdentityToken(part: string) {
    TrimSpace(part) == "" || ToLower(TrimSpace(part)) == "identity"
  }

  /** No listed content coding changes the body, section 8.4 of RFC 9110. */
  predicate IsIdentity(values: seq<string>) {
    forall i :: 0 <= i < |values| ==> forall part :: part in Split(values[i], ',') ==> IsIdentityToken(part)
  }

  /** isIdentityContentEncoding. */
  method IsIdentityContentEncoding(values: seq<string>) returns (b: bool)
    ensures b == IsIdentity(values)
  {
    if |values| == 0 {
      return true;
    }
    for i := 0 to |values|
      invariant IsIdentity(values[..i])
    {
      var parts := Split(values[i], ',');
      for j := 0 to |parts|
        invariant forall k :: 0 <= k < j ==> IsIdentityToken(parts[k])
      {
        var token := TrimSpace(parts[j]);
        if token == "" || ToLower(token) == "identity" {
          continue;
        }
        assert parts[j] in Split(values[i], ',');
        return false;
      }
    }
    return true;
  }

  /** The body rules that apply, in file order. */
  function Matching(rules: seq<BodyReplaceRule>, fm: FlowMeta, ct: string): seq<BodyReplaceRule> {
    if rules == [] then []
    else (if rules[0].Matches(fm, ct) then [rules[0]] else []) + Matching(rules[1..], fm, ct)
  }

  function Replaced(rules: seq<BodyReplaceRule>, data: seq<byte>): seq<byte> {
    if rules == [] then data else Replaced(rules[1..], rules[0].Apply(data))
  }

  /** The response after the given body rules; with none of them it is not touched, nor its stream read. */
  function Rewritten(matched: seq<BodyReplaceRule>, r: Response): Result<Response, RunError>
    requires r.body.Some?
  {
    if matched == [] then Ok(r)
    else if r.body.value.fails then Err(ResponseBodyError)
    else
      var data := Replaced(matched, r.body.value.data);
      Ok(r.(body := Some(Body(data, false)), headers := WithSet(r.headers, "Content-Length", Decimal(|data|))))
  }

  function BodyEdited(rules: seq<BodyReplaceRule>, fm: FlowMeta, r: Response): Result<Response, RunError> {
    if r.body.None? || !IsIdentity(Values(r.headers, "Content-Encoding")) then Ok(r)
    else Rewritten(Matching(rules, fm, Get(r.headers, "Content-Type")), r)
  }

  lemma {:induction false} MatchingAppend(rules: seq<BodyReplaceRule>, rule: BodyReplaceRule, fm: FlowMeta, ct: string)
    ensures Matching(rules + [rule], fm, ct) == Matching(rules, fm, ct) + if rule.Matches(fm, ct) then [rule] else []
  {
    if rules == [] {
      assert rules + [rule] == [rule] && [rule][1..] == [];
    } else {
      assert (rules + [rule])[1..] == rules[1..] + [rule];
      MatchingAppend(rules[1..], rule, fm, ct);
    }
  }

  method MatchingRules(rules: seq<BodyReplaceRule>, fm: FlowMeta, ct: string) returns (matched: seq<BodyReplaceRule>)
    ensures matched == Matching(rules, fm, ct)
  {
    matched := [];
    for i := 0 to |rules|
      invariant matched == Matching(rules[..i], fm, ct)
    {
      if rules[i].Matches(fm, ct) {
        matched := matched + [rules[i]];
      }
      MatchingAppend(rules[..i], rules[i], fm, ct);
      assert rules[..i + 1] == rules[..i] + [rules[i]];
    }
    assert rules[..|rules|] == rules;
  }

  method ReplaceAllRules(matched: seq<BodyReplaceRule>, data: seq<byte>) returns (bodyData: seq<byte>)
    ensures bodyData == Replaced(matched, data)
  {
    bodyData := data;
    for i := 0 to |matched|
      invariant Replaced(matched, data) == Replaced(matched[i..], bodyData)
    {
      bodyData := matched[i].Apply(bodyData);
    }
  }

  lemma SetAfterDel(h: Fields, name: string, value: string)
    ensures WithSet(h - {Canonical(name)}, name, value) == WithSet(h, name, value)
  {
  }

  method EditBody(rules: seq<BodyReplaceRule>, fm: FlowMeta, result: ResponseResult) returns (error: Option<RunError>)
    modifies result, result.headers
    ensures match BodyEdited(rules, fm, old(result.View()))
      case Ok(r) => error == None && result.View() == r
      case Err(e) => error == Some(e)
  {
    hide IsIdentity, Values, Get, Matching, Replaced, WithSet, Canonical;
    error := None;
    var identity := IsIdentityContentEncoding(Values(result.headers.m, "Content-Encoding"));
    if |rules| == 0 {
      NoRules(rules, fm, Get(result.headers.m, "Content-Type"));
      return;
    }
    if result.body.Some? && identity {
      var matched := MatchingRules(rules, fm, Get(result.headers.m, "Content-Type"));
      if |matched| > 0 {
        if result.body.value.fails {
          return Some(ResponseBodyError);
        }
        var bodyData := ReplaceAllRules(matched, result.body.value.data);
        result.body := Some(Body(bodyData, false));
        SetAfterDel(result.headers.m, "Content-Length", Decimal(|bodyData|));
        result.headers.Del("Content-Length");
        result.headers.Set("Content-Length", Decimal(|bodyData|));
      }
    }
  }

  lemma NoRules(rules: seq<BodyReplaceRule>, fm: FlowMeta, ct: string)
    requires rules == []
    ensures Matching(rules, fm, ct) == []
  {
  }

  // ---- the whole run --------------------------------------------------------------------------------

  /** Body rules, then the global response rules, then the operations of the rule that answered. */
  function Finished(rs: RuleSet, fm: FlowMeta, r: Response, own: Option<Ops>): Result<Response, RunError> {
    var edited :- BodyEdited(rs.bodyReplace, fm, r);
    var h := ResponseHeader(rs.headers, fm, edited.headers);
    Ok(edited.(headers := if own.Some? then Applied(h, own.value) else h))
  }

  /**
   Run on a rule set, when sent is the request header as copied for upstream.
   A refused traversal leaves at once, with no response stage.
  */
  function OutcomeOf(p: Pipeline, env: Env, fm: FlowMeta, sent: Fields, body: Option<Body>): Result<Response, RunError> {
    var rs := p.Active();
    match FirstRedirect(rs.redirect, fm)
    case Some(rr) => Finished(rs, fm, RedirectResponse(rr), Some(rr.response))
    case None =>
      match FirstMapped(env, rs.mapped, fm)
      case Some(Serve(response, ops)) => Finished(rs, fm, response, Some(ops))
      case Some(Forbid) => Ok(EmptyResponse(403, "local"))
      case Some(Fail(e)) => Err(e)
      case None =>
        var r :- Roundtrip(p, env, fm, sent, body, FirstRemote(rs.mapRemote, fm));
        Finished(rs, fm, r, None)
  }

  /** Run on a request with clean headers h, as net/http delivers them. */
  function Outcome(p: Pipeline, env: Env, fm: FlowMeta, h: Fields, body: Option<Body>): Result<Response, RunError> {
    OutcomeOf(p, env, fm, RequestHeader(p.Active().headers, fm, h), body)
  }

  method Finish(rs: RuleSet, fm: FlowMeta, result: ResponseResult, own: Option<Ops>)
    returns (r: Result<ResponseResult, RunError>)
    modifies result, result.headers
    ensures Shows(r, Finished(rs, fm, old(result.View()), own))
    ensures r.Ok? ==> r.value == result
  {
    var error := EditBody(rs.bodyReplace, fm, result);
    if error.Some? {
      return Err(error.value);
    }
    ApplyResponseRules(rs.headers, fm, result.headers);
    if own.Some? {
      Apply(result.headers, own.value);
    }
    r := Ok(result);
  }

  /**
   Run. The header copy is one of several when the request has keys that are not
   canonical, because Go visits a map in any order.
  */
  method Run(p: Pipeline, env: Env, fc: FlowContext) returns (r: Result<ResponseResult, RunError>, ghost sent: Fields)
    modifies fc.header
    ensures fc.header.m == RequestHeader(p.Active().headers, fc.meta, old(fc.header.m))
    ensures CopyOf(fc.header.m, fc.header.m.Keys, sent)
    ensures Shows(r, OutcomeOf(p, env, fc.meta, sent, fc.body))
    ensures Clean(old(fc.header.m)) ==> Shows(r, Outcome(p, env, fc.meta, old(fc.header.m), fc.body))
    ensures r.Ok? ==> fresh(r.value) && fresh(r.value.headers)
  {
    var rs, fm := p.Active(), fc.meta;
    ApplyRequestRules(rs.headers, fm, fc.header);
    r, sent := Respond(p, env, fc);
    if Clean(old(fc.header.m)) {
      RequestHeaderIsClean(rs.headers, fm, old(fc.header.m));
      CopyOfClean(fc.header.m, sent);
    }
  }

  /** The part of Run after the request header rules. */
  method Respond(p: Pipeline, env: Env, fc: FlowContext) returns (r: Result<ResponseResult, RunError>, ghost sent: Fields)
    ensures CopyOf(fc.header.m, fc.header.m.Keys, sent)
    ensures Shows(r, OutcomeOf(p, env, fc.meta, sent, fc.body))
    ensures r.Ok? ==> fresh(r.value) && fresh(r.value.headers)
  {
    var rs, fm := p.Active(), fc.meta;
    sent := SomeCopy(fc.header.m);
    var redirect := FindRedirect(rs.redirect, fm);
    if redirect.Some? {
      var redirected := ServeRedirect(redirect.value);
      r := Finish(rs, fm, redirected, Some(redirect.value.response));
      return;
    }
    var mapped := FindMapped(env, rs.mapped, fm);
    match mapped
    case Served(result, ops) =>
      r := Finish(rs, fm, result, Some(ops));
    case Refused =>
      var forbidden := EmptyResult(403, "local");
      r := Ok(forbidden);
    case Failed(e) =>
      r := Err(e);
    case NoMatch =>
      var target := FindRemote(rs.mapRemote, fm);
      r, sent := DoRoundtrip(p, env, fc, target);
      if r.Ok? {
        r := Finish(rs, fm, r.value, None);
      }
  }
}

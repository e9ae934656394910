/** internal/rules/redirect.go: redirects to a rewritten request URL. */
module Redirect {
  import opened Prelude
  import opened GoStrings
  import opened HttpHeader
  import opened Rules
  import opened Rewrite

  /** CompileRedirectRule refuses an empty search. */
  type SearchText = s: string | s != [] witness "x"

  /** In regex mode the rewriting is left open. */
  datatype Search = Literal(text: SearchText) | Pattern(rewrite: string -> string)

  datatype RedirectRule = RedirectRule(
    condition: Match, search: Search, replace: string, statusCode: int, response: Ops)

  datatype RedirectResult = RedirectResult(statusCode: int, location: string, response: Ops)

  predicate IncludePort(scheme: string, port: string) {
    if port == "" then false
    else if scheme == "https" && port == "443" then false
    else if scheme == "http" && port == "80" then false
    else true
  }

  function FullFlowUrl(fm: FlowMeta): string {
    var host := if IncludePort(fm.scheme, fm.port) then fm.host + ":" + fm.port else fm.host;
    var path := if fm.path == "" then "/" else fm.path;
    var url := fm.scheme + "://" + host + path;
    if fm.rawQuery != "" then url + "?" + fm.rawQuery else url
  }

  /** RedirectRule.Apply. */
  function Apply(r: RedirectRule, url: string): string {
    match r.search
    case Literal(text) => ReplaceAll(url, text, r.replace)
    case Pattern(rewrite) => rewrite(url)
  }

  /** RedirectRule.Resolve: nothing when the rule does not match or leaves the URL as it is. */
  function Resolve(r: RedirectRule, fm: FlowMeta): Option<RedirectResult> {
    var url := FullFlowUrl(fm);
    if !r.condition.Matches(fm) then None
    else if Apply(r, url) == url then None
    else Some(RedirectResult(r.statusCode, Apply(r, url), r.response))
  }

  /**
   In literal mode a redirect is emitted exactly when the match holds, the
   search text occurs in the full URL, and it is not its own replacement; its
   location is the URL with every leftmost occurrence replaced.
  */
  lemma LiteralRedirect(r: RedirectRule, fm: FlowMeta, pieces: seq<string>)
    requires r.search.Literal? && IsCut(pieces, FullFlowUrl(fm), r.search.text)
    ensures Resolve(r, fm).Some? <==>
      Hits(r.condition, fm) && Occurs(r.search.text, FullFlowUrl(fm)) && r.search.text != r.replace
    ensures Resolve(r, fm).Some? ==>
      Resolve(r, fm).value == RedirectResult(r.statusCode, Glue(pieces, r.replace), r.response)
  {
    MatchesMeansHits(r.condition, fm);
    ChangesExactlyWhenFound(FullFlowUrl(fm), r.search.text, r.replace);
    ReplaceAllMeaning(FullFlowUrl(fm), r.search.text, r.replace, pieces);
  }

  /** In regex mode a redirect is emitted exactly when the match holds and the rewriting changes the URL. */
  lemma PatternRedirect(r: RedirectRule, fm: FlowMeta)
    requires r.search.Pattern?
    ensures var location := r.search.rewrite(FullFlowUrl(fm));
      Resolve(r, fm) ==
        if Hits(r.condition, fm) && location != FullFlowUrl(fm) then Some(RedirectResult(r.statusCode, location, r.response))
        else None
  {
    MatchesMeansHits(r.condition, fm);
  }

  // ---- which flows share a URL, section 6.2.3 of RFC 3986 ----------------------------------

  predicate AllDigits(s: string) {
    forall i :: 0 <= i < |s| ==> '0' <= s[i] <= '9'
  }

  /** What the parts of a parsed http or https URL look like. */
  predicate WellFormed(fm: FlowMeta) {
    && ':' !in fm.scheme
    && ':' !in fm.host && '/' !in fm.host
    && AllDigits(fm.port)
    && (fm.path == "" || fm.path[0] == '/') && '?' !in fm.path
  }

  /** The port the scheme implies when the URL names none. */
  function DefaultPort(scheme: string): string {
    if scheme == "https" then "443" else if scheme == "http" then "80" else ""
  }

  function EffectivePort(fm: FlowMeta): string {
    if fm.port == "" then DefaultPort(fm.scheme) else fm.port
  }

  function EffectivePath(fm: FlowMeta): string {
    if fm.path == "" then "/" else fm.path
  }

  predicate SameTarget(a: FlowMeta, b: FlowMeta) {
    && a.scheme == b.scheme && a.host == b.host && EffectivePort(a) == EffectivePort(b)
    && EffectivePath(a) == EffectivePath(b) && a.rawQuery == b.rawQuery
  }

  /** The part of the URL between the scheme and the path. */
  function PortSuffix(fm: FlowMeta): string {
    if EffectivePort(fm) == DefaultPort(fm.scheme) then "" else [':'] + EffectivePort(fm)
  }

  function QuerySuffix(fm: FlowMeta): string {
    if fm.rawQuery == "" then "" else ['?'] + fm.rawQuery
  }

  lemma UrlHost(fm: FlowMeta)
    requires WellFormed(fm)
    ensures fm.host + PortSuffix(fm) == if IncludePort(fm.scheme, fm.port) then fm.host + ":" + fm.port else fm.host
    ensures '/' !in fm.host + PortSuffix(fm)
  {
    assert IncludePort(fm.scheme, fm.port) <==> EffectivePort(fm) != DefaultPort(fm.scheme);
  }

  lemma Regroup(scheme: string, host: string, path: string, query: string)
    ensures scheme + "://" + host + path + query == scheme + ("://" + (host + (path + query)))
    ensures scheme + "://" + host + path + "" == scheme + "://" + host + path
    ensures scheme + "://" + host + path + "?" + query == scheme + "://" + host + path + (['?'] + query)
  {
  }

  lemma UrlParts(fm: FlowMeta)
    requires WellFormed(fm)
    ensures FullFlowUrl(fm) ==
      fm.scheme + ("://" + ((fm.host + PortSuffix(fm)) + (EffectivePath(fm) + QuerySuffix(fm))))
    ensures '/' !in fm.host + PortSuffix(fm)
  {
    hide IncludePort, PortSuffix;
    UrlHost(fm);
    Regroup(fm.scheme, fm.host + PortSuffix(fm), EffectivePath(fm), QuerySuffix(fm));
    Regroup(fm.scheme, fm.host + PortSuffix(fm), EffectivePath(fm), fm.rawQuery);
  }

  /** Two flows have the same full URL exactly when they have the same target. */
  lemma UrlIdentifiesTarget(a: FlowMeta, b: FlowMeta)
    requires WellFormed(a) && WellFormed(b)
    ensures FullFlowUrl(a) == FullFlowUrl(b) <==> SameTarget(a, b)
  {
    UrlParts(a);
    UrlParts(b);
    if FullFlowUrl(a) == FullFlowUrl(b) {
      var hostA, hostB := a.host + PortSuffix(a), b.host + PortSuffix(b);
      var tailA, tailB := EffectivePath(a) + QuerySuffix(a), EffectivePath(b) + QuerySuffix(b);
      CutUnique(a.scheme, "://" + (hostA + tailA), b.scheme, "://" + (hostB + tailB), ':');
      assert hostA + tailA == ("://" + (hostA + tailA))[3..] == ("://" + (hostB + tailB))[3..] == hostB + tailB;
      CutUnique(hostA, tailA, hostB, tailB, '/');
      CutUnique(a.host, PortSuffix(a), b.host, PortSuffix(b), ':');
      CutUnique(EffectivePath(a), QuerySuffix(a), EffectivePath(b), QuerySuffix(b), '?');
      SameSuffixes(a, b);
    }
  }

  lemma SameSuffixes(a: FlowMeta, b: FlowMeta)
    requires a.scheme == b.scheme && PortSuffix(a) == PortSuffix(b) && QuerySuffix(a) == QuerySuffix(b)
    ensures EffectivePort(a) == EffectivePort(b) && a.rawQuery == b.rawQuery
  {
    assert forall s: string, c: char :: ([c] + s)[1..] == s;
  }
}

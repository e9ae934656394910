/** internal/rules/mapremote.go: which upstream a request is sent to instead of its own. */
module MapRemote {
  import opened Prelude
  import opened HttpHeader
  import opened Rules

  /** The parts of the parsed rule URL; a missing part is empty. */
  datatype BaseUrl = BaseUrl(scheme: string, hostname: string, port: string, path: string, rawQuery: string)

  datatype MapRemoteRule = MapRemoteRule(condition: Match, base: BaseUrl)

  /** Another upstream; empty parts stand for those of the request. */
  datatype Target = Target(scheme: string, host: string, port: string, path: string, rawQuery: string)

  function TrimSuffixSlash(s: string): string {
    if s != "" && s[|s| - 1] == '/' then s[..|s| - 1] else s
  }

  function TrimPrefixSlash(s: string): string {
    if s != "" && s[0] == '/' then s[1..] else s
  }

  /** joinMappedPath. */
  function JoinMappedPath(basePath: string, stripped: string): string {
    var base, suffix := TrimSuffixSlash(basePath), TrimPrefixSlash(stripped);
    if suffix == "" then (if base == "" then "/" else base)
    else base + "/" + suffix
  }

  /** The query of the rule URL first, then that of the request. */
  function JoinQuery(base: string, query: string): string {
    if base == "" then query else if query == "" then base else base + "&" + query
  }

  /** MapRemoteRule.Resolve. */
  function Resolve(r: MapRemoteRule, fm: FlowMeta): Option<Target> {
    if !r.condition.Matches(fm) then None
    else
      var stripped :- Stripped(r.condition, fm.path);
      var path := JoinMappedPath(if r.base.path == "" then "/" else r.base.path, if stripped == "" then "/" else stripped);
      Some(Target(r.base.scheme, r.base.hostname, r.base.port, path, JoinQuery(r.base.rawQuery, fm.rawQuery)))
  }

  /** With or without slashes at the seam, the mapped path has exactly one there, and none after a bare base. */
  lemma OneSlashAtTheSeam(base: string, rest: string)
    requires base == "" || base[|base| - 1] != '/'
    requires rest == "" || rest[0] != '/'
    ensures var joined := if rest != "" then base + ['/'] + rest else if base != "" then base else "/";
      && JoinMappedPath(base, rest) == JoinMappedPath(base + ['/'], rest) == joined
      && JoinMappedPath(base, ['/'] + rest) == JoinMappedPath(base + ['/'], ['/'] + rest) == joined
  {
    assert TrimSuffixSlash(base) == base && TrimSuffixSlash(base + ['/']) == base;
    assert TrimPrefixSlash(rest) == rest && TrimPrefixSlash(['/'] + rest) == rest;
  }

  /** A rule whose condition fails, or whose expression matches further on, names no target. */
  lemma OtherRequestsStay(r: MapRemoteRule, fm: FlowMeta)
    ensures !Hits(r.condition, fm) ==> Resolve(r, fm) == None
    ensures forall start, end :: r.condition.path.find(fm.path) == Some((start, end)) && start > 0 ==> Resolve(r, fm) == None
  {
    MatchesMeansHits(r.condition, fm);
  }

  /**
   The target of a rule whose expression consumed a prefix of the path: scheme,
   host and port of the rule URL, the rest of the path below the rule's path, both queries.
  */
  lemma TargetBelowBase(r: MapRemoteRule, fm: FlowMeta, prefix: string, base: string, rest: string)
    requires base == "" || base[|base| - 1] != '/'
    requires rest == "" || rest[0] != '/'
    requires r.base.path == base || r.base.path == base + ['/']
    requires Consumed(r.condition, fm, prefix, rest) || Consumed(r.condition, fm, prefix, ['/'] + rest)
    ensures Resolve(r, fm) == Some(Target(
      r.base.scheme, r.base.hostname, r.base.port,
      if rest != "" then base + ['/'] + rest else if base != "" then base else "/",
      if r.base.rawQuery == "" || fm.rawQuery == "" then r.base.rawQuery + fm.rawQuery
      else r.base.rawQuery + ['&'] + fm.rawQuery))
  {
    MatchesMeansHits(r.condition, fm);
    OneSlashAtTheSeam(base, rest);
    OneSlashAtTheSeam("", rest);
    OneSlashAtTheSeam(base, "");
    OneSlashAtTheSeam("", "");
    assert "" + ['/'] == "/" && ['/'] + "" == "/";
    assert "" + fm.rawQuery == fm.rawQuery && r.base.rawQuery + "" == r.base.rawQuery;
    assert rest == "" ==> ['/'] + rest == "/";
    if Consumed(r.condition, fm, prefix, rest) {
      StrippedMeaning(r.condition, fm.path, rest);
    } else {
      StrippedMeaning(r.condition, fm.path, ['/'] + rest);
    }
  }
}

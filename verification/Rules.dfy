/** internal/rules/rules.go: the request metadata that rules see, and the conditions on it. */
module Rules {
  import opened Prelude
  import opened HttpHeader

  datatype FlowMeta = FlowMeta(
    verb: string, scheme: string, host: string, port: string, path: string, rawQuery: string)

  /** No methods means any method. */
  datatype Match = Match(methods: set<string>, host: Regex, path: Regex) {
    predicate Matches(fm: FlowMeta) {
      (methods != {} ==> fm.verb in methods) && host.Matches(fm.host) && path.Matches(fm.path)
    }
  }

  /** A request meets a condition when its method is listed, if any is, and both expressions find a match. */
  predicate Hits(m: Match, fm: FlowMeta) {
    && (m.methods == {} || fm.verb in m.methods)
    && m.host.find(fm.host) != None
    && m.path.find(fm.path) != None
  }

  lemma MatchesMeansHits(m: Match, fm: FlowMeta)
    ensures m.Matches(fm) <==> Hits(m, fm)
  {
  }

  // ---- prefix stripping, shared by map_local and map_remote rules --------------------------

  /** The rest of the path after the match, when the match starts at the beginning. */
  function Stripped(m: Match, path: string): Option<string> {
    match m.path.find(path)
    case Some((start, end)) => if start == 0 && end <= |path| then Some(path[end..]) else None
    case None => None
  }

  /** Stripping takes off exactly the part of the path that the expression matched, from its start. */
  lemma StrippedMeaning(m: Match, path: string, rest: string)
    ensures Stripped(m, path) == Some(rest) <==>
      exists prefix :: path == prefix + rest && m.path.find(path) == Some((0, |prefix|))
  {
    if Stripped(m, path) == Some(rest) {
      var prefix := path[..|path| - |rest|];
      assert path == prefix + rest && m.path.find(path) == Some((0, |prefix|));
    }
  }

  /** The condition holds, and the path expression consumed exactly this prefix of the request path. */
  ghost predicate Consumed(m: Match, fm: FlowMeta, prefix: string, rest: string) {
    Hits(m, fm) && fm.path == prefix + rest && m.path.find(fm.path) == Some((0, |prefix|))
  }
}

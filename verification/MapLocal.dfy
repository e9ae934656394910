/** internal/rules/maplocal.go: which file a request path is served from. */
module MapLocal {
  import opened Prelude
  import opened GoStrings
  import opened HttpHeader
  import opened Rewrite
  import opened Rules
  import opened Paths

  /** fsPath is absolute: CompileMapLocalRule joins a relative one to the absolute base path. */
  datatype MapLocalRule = MapLocalRule(
    condition: Match, fsPath: string, indexFile: string, statusCode: int, contentType: string, response: Ops)

  datatype MapLocalResult = MapLocalResult(target: string, statusCode: int, contentType: string, response: Ops)

  datatype Kind = PlainFile | Directory

  /** What os.Stat says about a path: None is an error. */
  type Stat = string -> Option<Kind>

  datatype MapLocalError = StatFailed | Traversal

  /** The rest of the path, completed by the index file when it names a directory. */
  function Remainder(r: MapLocalRule, stripped: string): string {
    var rest := if stripped == "" then "/" else stripped;
    if rest[|rest| - 1] == '/' then rest + r.indexFile else rest
  }

  /** The directory branch: clean, join, then compare with the rule directory. */
  function DirectoryTarget(fsPath: string, remainder: string): Result<string, MapLocalError> {
    var urlPart := Clean(['/'] + remainder);
    var candidate := JoinPath(fsPath, urlPart[1..]);
    var base, target := Clean(fsPath), Clean(candidate);
    if StartsWith(Rel(base, target), "..") then Err(Traversal) else Ok(target)
  }

  /** MapLocalRule.Resolve. */
  function Resolve(r: MapLocalRule, fm: FlowMeta, stat: Stat): Result<Option<MapLocalResult>, MapLocalError> {
    if !r.condition.Matches(fm) then Ok(None)
    else
      var stripped := Stripped(r.condition, fm.path);
      if stripped.None? then Ok(None)
      else
        match stat(r.fsPath)
        case None => Err(StatFailed)
        case Some(PlainFile) => Ok(Some(MapLocalResult(r.fsPath, r.statusCode, r.contentType, r.response)))
        case Some(Directory) =>
          var target :- DirectoryTarget(r.fsPath, Remainder(r, stripped.value));
          Ok(Some(MapLocalResult(target, r.statusCode, r.contentType, r.response)))
  }

  // ---- containment ------------------------------------------------------------------------

  /** The cleaned remainder, component by component. */
  function Names(remainder: string): seq<string> {
    Components(['/'] + remainder)
  }

  predicate StartsWithDots(names: seq<string>) {
    names != [] && StartsWith(names[0], "..")
  }

  /** The directory branch in full: the cleaned remainder below the cleaned rule directory, unless it starts with dots. */
  lemma DirectoryTargetMeaning(fsPath: string, remainder: string)
    ensures DirectoryTarget(fsPath, remainder) ==
      if StartsWithDots(Names(remainder)) then Err(Traversal) else Ok(Rooted(Components(fsPath) + Names(remainder)))
    ensures AllNames(Components(fsPath)) && AllNames(Names(remainder))
  {
    var base, names := Components(fsPath), Names(remainder);
    ComponentsAreNames(fsPath);
    ComponentsAreNames(['/'] + remainder);
    assert Clean(['/'] + remainder)[1..] == Join(names, '/');
    JoinPathAppends(fsPath, names);
    RootedComponents(base + names);
    RelBelow(base, names);
    if names != [] {
      DotDotFirst(names);
    }
  }

  /** What Resolve returns is the rule's own file, or the rule directory or something below it. */
  lemma TargetIsContained(r: MapLocalRule, fm: FlowMeta, stat: Stat)
    requires Resolve(r, fm, stat).Ok? && Resolve(r, fm, stat).value.Some?
    ensures var target := Resolve(r, fm, stat).value.value.target;
      match stat(r.fsPath)
      case Some(PlainFile) => target == r.fsPath
      case Some(Directory) => Below(target, Clean(r.fsPath)) && AllNames(Components(target))
      case None => false
  {
    if stat(r.fsPath) == Some(Directory) {
      var remainder := Remainder(r, Stripped(r.condition, fm.path).value);
      DirectoryTargetMeaning(r.fsPath, remainder);
      AppendedIsBelow(Components(r.fsPath), Names(remainder));
      ComponentsAreNames(Resolve(r, fm, stat).value.value.target);
    }
  }

  lemma NamesBelowDirectory(r: MapLocalRule, fm: FlowMeta, stat: Stat, prefix: string, rest: string, names: seq<string>)
    requires Consumed(r.condition, fm, prefix, rest) && stat(r.fsPath) == Some(Directory)
    requires Names(Remainder(r, rest)) == names && !StartsWithDots(names)
    ensures Resolve(r, fm, stat) ==
      Ok(Some(MapLocalResult(Rooted(Components(r.fsPath) + names), r.statusCode, r.contentType, r.response)))
  {
    hide Remainder, DirectoryTarget, Names, Components, Rooted, Stripped;
    MatchesMeansHits(r.condition, fm);
    StrippedMeaning(r.condition, fm.path, rest);
    DirectoryTargetMeaning(r.fsPath, Remainder(r, rest));
  }

  /**
   Prefix stripping: when the path is what the expression consumed and then
   names, they are looked up below the rule directory.
  */
  lemma ServesBelowDirectory(r: MapLocalRule, fm: FlowMeta, stat: Stat, prefix: string, names: seq<string>)
    requires stat(r.fsPath) == Some(Directory)
    requires names != [] && AllNames(names) && !StartsWithDots(names)
    requires Consumed(r.condition, fm, prefix, Join(names, '/')) || Consumed(r.condition, fm, prefix, Rooted(names))
    ensures Resolve(r, fm, stat) ==
      Ok(Some(MapLocalResult(Rooted(Components(r.fsPath) + names), r.statusCode, r.contentType, r.response)))
  {
    hide Remainder, Names, Consumed;
    NamesOf(names);
    if Consumed(r.condition, fm, prefix, Join(names, '/')) {
      NamesBelowDirectory(r, fm, stat, prefix, Join(names, '/'), names);
    } else {
      NamesBelowDirectory(r, fm, stat, prefix, Rooted(names), names);
    }
  }

  /** A remainder made of names is its own completion, and cleaning gives those names back. */
  lemma NamesOf(names: seq<string>)
    requires names != [] && AllNames(names)
    ensures forall r :: Remainder(r, Join(names, '/')) == Join(names, '/') && Remainder(r, Rooted(names)) == Rooted(names)
    ensures Names(Join(names, '/')) == names && Names(Rooted(names)) == names
  {
    NoTrailingSlash(names);
    RootedComponents(names);
    DoubleSlash(Rooted(names));
  }

  lemma DoubleSlash(path: string)
    ensures Components(['/'] + path) == Components(path)
  {
    SplitPart("", path, '/');
    CleanSkipsEmpty([], Split(path, '/'));
    assert "" + ['/'] + path == ['/'] + path;
  }

  lemma {:induction false} NoTrailingSlash(names: seq<string>)
    requires names != [] && AllNames(names)
    ensures Join(names, '/') != "" && Join(names, '/')[|Join(names, '/')| - 1] != '/'
  {
    var last := names[|names| - 1];
    if |names| > 1 {
      NoTrailingSlash(names[1..]);
    } else {
      assert IsName(last) && last[|last| - 1] in last;
    }
  }

  /** A request for the whole prefix, with or without a slash, is served the index file. */
  lemma ServesIndexFile(r: MapLocalRule, fm: FlowMeta, stat: Stat, prefix: string)
    requires stat(r.fsPath) == Some(Directory)
    requires IsName(r.indexFile) && !StartsWithDots([r.indexFile])
    requires Consumed(r.condition, fm, prefix, "") || Consumed(r.condition, fm, prefix, "/")
    ensures Resolve(r, fm, stat) ==
      Ok(Some(MapLocalResult(Rooted(Components(r.fsPath) + [r.indexFile]), r.statusCode, r.contentType, r.response)))
  {
    hide Names, Consumed, Resolve;
    var names := [r.indexFile];
    assert Remainder(r, "") == Rooted(names) && Remainder(r, "/") == Rooted(names);
    NamesOf(names);
    if Consumed(r.condition, fm, prefix, "") {
      NamesBelowDirectory(r, fm, stat, prefix, "", names);
    } else {
      NamesBelowDirectory(r, fm, stat, prefix, "/", names);
    }
  }

  /** A request for a directory below, by its trailing slash, is served the index file there. */
  lemma ServesIndexBelow(r: MapLocalRule, fm: FlowMeta, stat: Stat, prefix: string, names: seq<string>)
    requires stat(r.fsPath) == Some(Directory)
    requires names != [] && AllNames(names) && !StartsWithDots(names) && IsName(r.indexFile)
    requires
      || Consumed(r.condition, fm, prefix, Join(names, '/') + ['/'])
      || Consumed(r.condition, fm, prefix, Rooted(names) + ['/'])
    ensures Resolve(r, fm, stat) == Ok(Some(MapLocalResult(
      Rooted(Components(r.fsPath) + (names + [r.indexFile])), r.statusCode, r.contentType, r.response)))
  {
    hide Names, Consumed, Resolve;
    var all := names + [r.indexFile];
    JoinAppend(names, [r.indexFile]);
    assert Join(all, '/') == Join(names, '/') + ['/'] + r.indexFile;
    assert Remainder(r, Join(names, '/') + ['/']) == Join(all, '/');
    assert Remainder(r, Rooted(names) + ['/']) == Rooted(all);
    NamesOf(all);
    if Consumed(r.condition, fm, prefix, Join(names, '/') + ['/']) {
      NamesBelowDirectory(r, fm, stat, prefix, Join(names, '/') + ['/'], all);
    } else {
      NamesBelowDirectory(r, fm, stat, prefix, Rooted(names) + ['/'], all);
    }
  }

  /**
   Otherwise: a rule whose condition fails or whose expression matches further
   on is no match, a missing rule path is an error, and a rule file is served for every path.
  */
  lemma OtherPaths(r: MapLocalRule, fm: FlowMeta, stat: Stat)
    ensures !Hits(r.condition, fm) ==> Resolve(r, fm, stat) == Ok(None)
    ensures forall start, end :: r.condition.path.find(fm.path) == Some((start, end)) && start > 0 ==>
      Resolve(r, fm, stat) == Ok(None)
    ensures forall prefix, rest :: Consumed(r.condition, fm, prefix, rest) ==>
      && (stat(r.fsPath) == None ==> Resolve(r, fm, stat) == Err(StatFailed))
      && (stat(r.fsPath) == Some(PlainFile) ==>
            Resolve(r, fm, stat) == Ok(Some(MapLocalResult(r.fsPath, r.statusCode, r.contentType, r.response))))
  {
    MatchesMeansHits(r.condition, fm);
    forall prefix, rest | Consumed(r.condition, fm, prefix, rest) ensures Stripped(r.condition, fm.path) == Some(rest) {
      StrippedMeaning(r.condition, fm.path, rest);
    }
  }

  lemma DottedName(name: string)
    requires IsName(name) && StartsWith(name, "..")
    ensures |name| > 2
  {
  }

  /**
   The traversal error occurs exactly when the first component of the cleaned
   remainder starts with "..". It is then the name of an ordinary entry of the
   rule directory, because cleaning a rooted path leaves no ".." behind.
  */
  lemma TraversalExactly(r: MapLocalRule, fm: FlowMeta, stat: Stat)
    ensures Resolve(r, fm, stat) == Err(Traversal) <==>
      && r.condition.Matches(fm) && Stripped(r.condition, fm.path).Some? && stat(r.fsPath) == Some(Directory)
      && StartsWithDots(Names(Remainder(r, Stripped(r.condition, fm.path).value)))
    ensures Resolve(r, fm, stat) == Err(Traversal) ==>
      var names := Names(Remainder(r, Stripped(r.condition, fm.path).value));
      IsName(names[0]) && |names[0]| > 2 && Below(Rooted(Components(r.fsPath) + names), Clean(r.fsPath))
  {
    hide Remainder, DirectoryTarget, Names, Components, Rooted, StartsWith, IsName;
    var stripped := Stripped(r.condition, fm.path);
    if r.condition.Matches(fm) && stripped.Some? {
      var names := Names(Remainder(r, stripped.value));
      DirectoryTargetMeaning(r.fsPath, Remainder(r, stripped.value));
      if StartsWithDots(names) {
        DottedName(names[0]);
        AppendedIsBelow(Components(r.fsPath), names);
      }
    }
  }

  /** So a file whose name starts with two dots is refused although it lies in the rule directory. */
  lemma DottedFileIsRefused(r: MapLocalRule, fm: FlowMeta, stat: Stat)
    requires r.condition == Match({}, Regex(s => Some((0, 0))), Regex(s => Some((0, 0))))
    requires fm.path == "/..foo" && stat(r.fsPath) == Some(Directory)
    ensures Resolve(r, fm, stat) == Err(Traversal)
  {
    hide Names, DirectoryTarget, StartsWith;
    assert Stripped(r.condition, fm.path) == Some(fm.path);
    assert Remainder(r, fm.path) == fm.path;
    DottedFileNames(fm.path);
    TraversalExactly(r, fm, stat);
  }

  lemma DottedFileNames(path: string)
    requires path == "/..foo"
    ensures Names(path) == ["..foo"] && StartsWithDots(["..foo"])
  {
    hide Split, CleanOnto;
    var name := "..foo";
    assert ['/'] + path == [] + ['/'] + ([] + ['/'] + name);
    SplitPart([], [] + ['/'] + name, '/');
    SplitPart([], name, '/');
    SplitWhole(name, '/');
    assert Split(['/'] + path, '/') == [""] + ([""] + [name]);
    CleanSkipsEmpty([], [""] + [name]);
    CleanSkipsEmpty([], [name]);
    CleanKeepsNames([], [name]);
  }
}

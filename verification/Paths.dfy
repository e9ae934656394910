/** Rooted slash-separated paths: path.Clean, and filepath.Join, Abs and Rel, by components. */
module Paths {
  import opened GoStrings
  import opened Rewrite

  /** Where one component leads from a directory: the root is its own parent. */
  function Step(dir: seq<string>, part: string): seq<string> {
    if part == "" || part == "." then dir
    else if part == ".." then (if dir == [] then [] else dir[..|dir| - 1])
    else dir + [part]
  }

  /** Where a list of components leads. */
  function CleanOnto(dir: seq<string>, parts: seq<string>): seq<string>
    decreases |parts|
  {
    if parts == [] then dir else CleanOnto(Step(dir, parts[0]), parts[1..])
  }

  /** The components of a rooted path, after cleaning. */
  function Components(path: string): seq<string> {
    CleanOnto([], Split(path, '/'))
  }

  function Rooted(parts: seq<string>): string {
    ['/'] + Join(parts, '/')
  }

  /** path.Clean of a rooted path. */
  function Clean(path: string): string {
    Rooted(Components(path))
  }

  /** filepath.Join of a rooted path and a relative one: an empty element is ignored. */
  function JoinPath(base: string, rel: string): string {
    Clean(if rel == "" then base else base + ['/'] + rel)
  }

  function RelParts(base: seq<string>, target: seq<string>): seq<string> {
    if base != [] && target != [] && base[0] == target[0] then RelParts(base[1..], target[1..])
    else seq(|base|, i => "..") + target
  }

  /** filepath.Rel of two rooted paths. */
  function Rel(base: string, target: string): string {
    var parts := RelParts(Components(base), Components(target));
    if parts == [] then "." else Join(parts, '/')
  }

  // ---- components ----------------------------------------------------------------------

  /** A component that names an entry of a directory. */
  predicate IsName(part: string) {
    part != "" && part != "." && part != ".." && '/' !in part
  }

  predicate AllNames(parts: seq<string>) {
    forall i :: 0 <= i < |parts| ==> IsName(parts[i])
  }

  lemma {:induction false} CleanLeavesNames(dir: seq<string>, parts: seq<string>)
    requires AllNames(dir) && forall p :: p in parts ==> '/' !in p
    ensures AllNames(CleanOnto(dir, parts))
    decreases |parts|
  {
    if parts != [] {
      assert parts[0] in parts;
      CleanLeavesNames(Step(dir, parts[0]), parts[1..]);
    }
  }

  lemma {:induction false} CleanKeepsNames(dir: seq<string>, parts: seq<string>)
    requires AllNames(parts)
    ensures CleanOnto(dir, parts) == dir + parts
    decreases |parts|
  {
    if parts != [] {
      assert IsName(parts[0]);
      CleanKeepsNames(dir + [parts[0]], parts[1..]);
      assert dir + [parts[0]] + parts[1..] == dir + parts;
    }
  }

  lemma CleanSkipsEmpty(dir: seq<string>, rest: seq<string>)
    ensures CleanOnto(dir, [""] + rest) == CleanOnto(dir, rest)
  {
    assert ([""] + rest)[1..] == rest;
  }

  lemma {:induction false} CleanInTwo(dir: seq<string>, a: seq<string>, b: seq<string>)
    ensures CleanOnto(dir, a + b) == CleanOnto(CleanOnto(dir, a), b)
    decreases |a|
  {
    if a == [] {
      assert a + b == b;
    } else {
      assert (a + b)[1..] == a[1..] + b;
      CleanInTwo(Step(dir, a[0]), a[1..], b);
    }
  }

  /** Cleaning removes every empty, "." and ".." component of a rooted path. */
  lemma ComponentsAreNames(path: string)
    ensures AllNames(Components(path))
  {
    CleanLeavesNames([], Split(path, '/'));
  }

  lemma JoinedComponents(base: string, names: seq<string>)
    requires AllNames(names)
    ensures Components(base + ['/'] + Join(names, '/')) == Components(base) + names
  {
    SplitAppend(base, Join(names, '/'), '/');
    CleanInTwo([], Split(base, '/'), Split(Join(names, '/'), '/'));
    if names == [] {
      assert Split([], '/') == [[]];
      assert CleanOnto(Components(base), [[]]) == CleanOnto(Components(base), []);
    } else {
      SplitJoin(names, '/');
      CleanKeepsNames(Components(base), names);
    }
  }

  /** A rooted path made of names has just those components. */
  lemma RootedComponents(names: seq<string>)
    requires AllNames(names)
    ensures Components(Rooted(names)) == names
  {
    JoinedComponents("", names);
    assert "" + ['/'] + Join(names, '/') == Rooted(names);
    assert Split("", '/') == [[]];
    assert CleanOnto([], [[]]) == CleanOnto([], []);
  }

  lemma CleanTwice(path: string)
    ensures Clean(Clean(path)) == Clean(path)
  {
    ComponentsAreNames(path);
    RootedComponents(Components(path));
  }

  /** A name followed by ".." leads back, and the root is its own parent. */
  lemma ParentUndoesName(base: string, name: string)
    requires IsName(name)
    ensures Components(base + ['/'] + (name + ['/'] + "..")) == Components(base)
    ensures Components("/..") == []
  {
    SplitAppend(base, name + ['/'] + "..", '/');
    SplitPart(name, "..", '/');
    SplitWhole("..", '/');
    CleanInTwo([], Split(base, '/'), [name] + [".."]);
    assert ([name] + [".."])[1..] == [".."] && [".."][1..] == [];
    var dir := Components(base);
    assert Step(Step(dir, name), "..") == dir;
    SplitPart("", "..", '/');
    assert "" + ['/'] + ".." == "/..";
    CleanSkipsEmpty([], [".."]);
  }

  // ---- joining and relating ----------------------------------------------------------------

  lemma JoinPathAppends(base: string, names: seq<string>)
    requires AllNames(names)
    ensures JoinPath(base, Join(names, '/')) == Rooted(Components(base) + names)
  {
    if names == [] {
      assert Components(base) + names == Components(base);
    } else {
      assert names[0] != "" && Join(names, '/') != "";
      JoinedComponents(base, names);
    }
  }

  lemma {:induction false} RelPartsBelow(base: seq<string>, names: seq<string>)
    ensures RelParts(base, base + names) == names
  {
    if base == [] {
      assert base + names == names;
    } else {
      assert (base + names)[1..] == base[1..] + names;
      RelPartsBelow(base[1..], names);
    }
  }

  lemma RelBelow(base: seq<string>, names: seq<string>)
    requires AllNames(base) && AllNames(names)
    ensures Rel(Rooted(base), Rooted(base + names)) == if names == [] then "." else Join(names, '/')
  {
    RootedComponents(base);
    RootedComponents(base + names);
    RelPartsBelow(base, names);
  }

  /** A joined relative path starts with ".." exactly when its first name does. */
  lemma DotDotFirst(names: seq<string>)
    requires names != [] && AllNames(names)
    ensures StartsWith(Join(names, '/'), "..") <==> StartsWith(names[0], "..")
  {
    var joined := Join(names, '/');
    assert IsName(names[0]);
    if |names| > 1 {
      assert joined == names[0] + ['/'] + Join(names[1..], '/');
      if |names[0]| == 1 {
        assert joined[1] == '/';
      } else {
        assert joined[..2] == names[0][..2];
      }
    }
  }

  /** target is base itself or lies below it. */
  predicate Below(target: string, base: string) {
    target == base || StartsWith(target, if base == "/" then base else base + ['/'])
  }

  lemma {:induction false} JoinAppend(a: seq<string>, b: seq<string>)
    requires a != [] && b != []
    ensures Join(a + b, '/') == Join(a, '/') + ['/'] + Join(b, '/')
  {
    if |a| == 1 {
      assert (a + b)[1..] == b;
    } else {
      assert (a + b)[1..] == a[1..] + b;
      JoinAppend(a[1..], b);
      assert a[0] + ['/'] + (Join(a[1..], '/') + ['/'] + Join(b, '/')) == Join(a, '/') + ['/'] + Join(b, '/');
    }
  }

  lemma AppendedIsBelow(base: seq<string>, names: seq<string>)
    requires AllNames(base) && AllNames(names)
    ensures Below(Rooted(base + names), Rooted(base))
  {
    if names == [] {
      assert base + names == base;
    } else if base == [] {
      assert base + names == names;
    } else {
      JoinAppend(base, names);
      assert Rooted(base + names) == (Rooted(base) + ['/']) + Join(names, '/');
    }
  }
}

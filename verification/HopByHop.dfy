/** internal/httpx/hopbyhop.go: the headers a proxy must not forward. */
module HopByHop {
  import opened Prelude
  import opened GoStrings
  import opened HttpHeader
  import opened HeaderLaws

  /** hopByHopHeaders. */
  function HopByHopNames(): set<string> {
    {
      "Connection", "Proxy-Connection", "Keep-Alive", "Te", "Trailer",
      "Transfer-Encoding", "Upgrade", "Proxy-Authenticate", "Proxy-Authorization"
    }
  }

  /** The names a comma-separated line lists, in canonical form. */
  function Tokens(line: string): set<string> {
    Names(Split(line, ','))
  }

  function Names(parts: seq<string>): set<string> {
    set i | 0 <= i < |parts| :: Canonical(TrimSpace(parts[i]))
  }

  function Listed(lines: seq<string>): set<string> {
    if lines == [] then {} else Tokens(lines[0]) + Listed(lines[1..])
  }

  /** Every key that must go: the fixed names and whatever Connection lists. */
  function Doomed(h: Fields): set<string> {
    HopByHopNames() + Listed(OrEmpty(At(h, "Connection")))
  }

  function Forwardable(h: Fields): Fields {
    h - Doomed(h)
  }

  lemma NamesAreCanonical(k: string)
    requires k in HopByHopNames()
    ensures Canonical(k) == k
  {
    hide Canonical;
    AlreadyCanonical("Connection", 0);
    AlreadyCanonical("Keep-Alive", 0);
    AlreadyCanonical("Te", 0);
    AlreadyCanonical("Trailer", 0);
    AlreadyCanonical("Upgrade", 0);
    LongNamesAreCanonical();
  }

  lemma LongNamesAreCanonical()
    ensures Canonical("Proxy-Connection") == "Proxy-Connection"
    ensures Canonical("Proxy-Authenticate") == "Proxy-Authenticate"
    ensures Canonical("Proxy-Authorization") == "Proxy-Authorization"
    ensures Canonical("Transfer-Encoding") == "Transfer-Encoding"
  {
    hide Canonical;
    assert InPlace("Proxy-Connection", 8) && InPlace("Transfer-Encoding", 8);
    assert InPlace("Proxy-Authenticate", 8) && InPlace("Proxy-Authorization", 8);
    AlreadyCanonical("Proxy-Connection", 0);
    AlreadyCanonical("Proxy-Authenticate", 0);
    AlreadyCanonical("Proxy-Authorization", 0);
    AlreadyCanonical("Transfer-Encoding", 0);
  }

  lemma NothingListed(lines: seq<string>)
    requires lines == []
    ensures Listed(lines) == {}
  {
  }

  lemma {:induction false} ListedAppend(lines: seq<string>, line: string)
    ensures Listed(lines + [line]) == Listed(lines) + Tokens(line)
  {
    if lines == [] {
      assert lines + [line] == [line] && [line][1..] == [];
    } else {
      assert (lines + [line])[1..] == lines[1..] + [line];
      ListedAppend(lines[1..], line);
    }
  }

  /** The inner loop of RemoveHopByHop. */
  method RemoveListed(h: Header, line: string)
    modifies h
    ensures h.m == old(h.m) - Tokens(line)
  {
    var parts := Split(line, ',');
    ghost var gone: set<string> := {};
    for i := 0 to |parts|
      invariant h.m == old(h.m) - gone
      invariant gone == set j | 0 <= j < i :: Canonical(TrimSpace(parts[j]))
    {
      h.Del(TrimSpace(parts[i]));
      gone := gone + {Canonical(TrimSpace(parts[i]))};
    }
  }

  /** RemoveHopByHop. The lines of Connection are read once, so that listing Connection itself is harmless. */
  method RemoveHopByHop(h: Header)
    modifies h
    ensures h.m == Forwardable(old(h.m))
  {
    hide Canonical, HopByHopNames, Listed;
    var lines := OrEmpty(At(h.m, "Connection"));
    NothingListed(lines[..0]);
    for i := 0 to |lines|
      invariant h.m == old(h.m) - Listed(lines[..i])
    {
      assert lines[..i + 1] == lines[..i] + [lines[i]];
      ListedAppend(lines[..i], lines[i]);
      RemoveListed(h, lines[i]);
    }
    assert lines[..|lines|] == lines;
    var names := HopByHopNames();
    while names != {}
      invariant names <= HopByHopNames()
      invariant h.m == old(h.m) - Listed(lines) - (HopByHopNames() - names)
      decreases |names|
    {
      var name :| name in names;
      NamesAreCanonical(name);
      h.Del(name);
      names := names - {name};
    }
  }

  /**
   What is left has no hop-by-hop name and nothing Connection listed, keeps
   every other key with its values, and is left alone by a second pass.
  */
  lemma ForwardableIsExact(h: Fields)
    ensures forall k ::
      At(Forwardable(h), k) == if k in HopByHopNames() || k in Listed(OrEmpty(At(h, "Connection"))) then None else At(h, k)
    ensures Forwardable(Forwardable(h)) == Forwardable(h)
  {
    assert "Connection" in HopByHopNames();
    assert At(Forwardable(h), "Connection") == None;
    assert Forwardable(h) - HopByHopNames() == Forwardable(h);
  }

  // ---- one Connection line or several ------------------------------------------------------

  lemma NamesAppend(a: seq<string>, b: seq<string>)
    ensures Names(a + b) == Names(a) + Names(b)
  {
    forall i | 0 <= i < |b| ensures Canonical(TrimSpace(b[i])) in Names(a + b) {
      assert (a + b)[|a| + i] == b[i];
    }
    forall i | 0 <= i < |a| ensures Canonical(TrimSpace(a[i])) in Names(a + b) {
      assert (a + b)[i] == a[i];
    }
  }

  lemma NamesOne(part: string)
    ensures Names([part]) == {Canonical(TrimSpace(part))}
  {
    assert Canonical(TrimSpace([part][0])) in Names([part]);
  }

  lemma NotAComma(c: char)
    requires IsSpace(c)
    ensures c != ','
  {
  }

  lemma {:induction false} PaddedParts(pad: string, s: string)
    requires Blank(pad)
    ensures var p := Split(s, ',');
      Split(pad + s, ',') == [pad + p[0]] + p[1..]
  {
    var p := Split(s, ',');
    if pad == [] {
      assert pad + s == s && pad + p[0] == p[0] && [p[0]] + p[1..] == p;
    } else {
      assert (pad + s)[1..] == pad[1..] + s;
      PaddedParts(pad[1..], s);
      OntoOne(pad[0], pad[1..] + p[0], p[1..]);
      assert [pad[0]] + (pad[1..] + p[0]) == pad + p[0];
      NotAComma(pad[0]);
    }
  }

  lemma PaddedTokens(pad: string, s: string)
    requires Blank(pad)
    ensures Tokens(pad + s) == Tokens(s)
  {
    var p := Split(s, ',');
    PaddedParts(pad, s);
    TrimPadding(pad, p[0]);
    NamesOne(pad + p[0]);
    NamesOne(p[0]);
    NamesAppend([pad + p[0]], p[1..]);
    NamesAppend([p[0]], p[1..]);
    assert [p[0]] + p[1..] == p;
  }

  /** Joining lines with a comma and optional white space, section 5.3 of RFC 9110. */
  function Folded(lines: seq<string>, pad: string): string
    requires lines != []
  {
    if |lines| == 1 then lines[0] else lines[0] + [','] + (pad + Folded(lines[1..], pad))
  }

  lemma {:induction false} FoldedTokens(lines: seq<string>, pad: string)
    requires lines != [] && Blank(pad)
    ensures Tokens(Folded(lines, pad)) == Listed(lines)
  {
    if |lines| == 1 {
      assert Listed(lines) == Tokens(lines[0]) + Listed([]);
    } else {
      var rest := Folded(lines[1..], pad);
      FoldedTokens(lines[1..], pad);
      PaddedTokens(pad, rest);
      SplitAppend(lines[0], pad + rest, ',');
      NamesAppend(Split(lines[0], ','), Split(pad + rest, ','));
    }
  }

  /** Several Connection lines and the same lines folded into one have the same effect. */
  lemma FoldedConnectionIsTheSame(h: Fields, pad: string)
    requires "Connection" in h && h["Connection"] != [] && Blank(pad)
    ensures Forwardable(h["Connection" := [Folded(h["Connection"], pad)]]) == Forwardable(h)
  {
    var lines := h["Connection"];
    FoldedTokens(lines, pad);
    var one := [Folded(lines, pad)];
    assert Listed(one) == Tokens(one[0]) + Listed(one[1..]);
    assert Listed(one) == Listed(lines);
    assert "Connection" in HopByHopNames();
  }

  // ---- the copy made for the upstream request --------------------------------------------------

  /** The keys a copy of h has: the canonical forms of the keys with a value. */
  function CopiedKeys(h: Fields, seen: set<string>): set<string> {
    set k | k in seen && k in h && h[k] != [] :: Canonical(k)
  }

  /** The inner loop of the copy: one Add for each value of k. */
  method CopyValues(out: Header, k: string, vals: seq<string>)
    requires Clean(out.m)
    modifies out
    ensures Clean(out.m)
    ensures out.m.Keys == old(out.m.Keys) + if vals == [] then {} else {Canonical(k)}
    ensures out.m - {Canonical(k)} == old(out.m) - {Canonical(k)}
    ensures Canonical(k) !in old(out.m) && vals != [] ==> out.m == old(out.m)[Canonical(k) := vals]
  {
    CanonicalTwice(k);
    for i := 0 to |vals|
      invariant Clean(out.m)
      invariant out.m.Keys == old(out.m.Keys) + if i == 0 then {} else {Canonical(k)}
      invariant i == 0 ==> out.m == old(out.m)
      invariant out.m - {Canonical(k)} == old(out.m) - {Canonical(k)}
      invariant Canonical(k) !in old(out.m) && i > 0 ==> out.m == old(out.m)[Canonical(k) := vals[..i]]
    {
      out.Add(k, vals[i]);
      assert vals[..i + 1] == vals[..i] + [vals[i]];
    }
    assert vals[..|vals|] == vals;
  }

  /** No other key of h has the canonical form of k. */
  ghost predicate Alone(h: Fields, k: string) {
    k in h && forall j :: j in h && Canonical(j) == Canonical(k) ==> j == k
  }

  /**
   m is a copy of the keys of h in seen: clean, with the canonical forms of the
   keys that have a value, each with the same values when no other key shares its form.
  */
  ghost predicate CopyOf(h: Fields, seen: set<string>, m: Fields) {
    && Clean(m)
    && m.Keys == CopiedKeys(h, seen)
    && (forall k :: k in seen && Alone(h, k) && h[k] != [] ==> At(m, Canonical(k)) == Some(h[k]))
  }

  lemma CopiedOne(h: Fields, seen: set<string>, k: string)
    requires k in h
    ensures CopiedKeys(h, seen + {k}) == CopiedKeys(h, seen) + if h[k] == [] then {} else {Canonical(k)}
  {
    if h[k] != [] {
      assert Canonical(k) in CopiedKeys(h, seen + {k});
    }
  }

  lemma CopyNothing(h: Fields)
    ensures CopyOf(h, {}, map[])
  {
  }

  lemma CopiesAreClean(h: Fields, seen: set<string>, m: Fields)
    requires CopyOf(h, seen, m)
    ensures Clean(m)
  {
  }

  lemma CopyStep(h: Fields, seen: set<string>, m: Fields, k: string, next: Fields)
    requires CopyOf(h, seen, m) && k in h && k !in seen && Clean(next)
    requires next.Keys == m.Keys + if h[k] == [] then {} else {Canonical(k)}
    requires next - {Canonical(k)} == m - {Canonical(k)}
    requires Canonical(k) !in m && h[k] != [] ==> next == m[Canonical(k) := h[k]]
    ensures CopyOf(h, seen + {k}, next)
  {
    hide Canonical;
    CopiedOne(h, seen, k);
    forall j | j in seen + {k} && Alone(h, j) && h[j] != [] ensures At(next, Canonical(j)) == Some(h[j]) {
      if j == k {
        assert Canonical(k) !in m;
      } else {
        assert At(m - {Canonical(k)}, Canonical(j)) == At(next - {Canonical(k)}, Canonical(j));
      }
    }
  }

  /**
   The header copy of roundtrip, keys in any order. On a clean map it changes
   nothing; on any map its result is clean.
  */
  method CopyHeader(h: Fields) returns (out: Header)
    ensures fresh(out) && CopyOf(h, h.Keys, out.m)
  {
    hide Canonical, CopyOf, Clean, CopiedKeys;
    out := new Header(map[]);
    CopyNothing(h);
    var keys := h.Keys;
    ghost var seen: set<string> := {};
    while keys != {}
      invariant fresh(out) && keys !! seen && keys + seen == h.Keys
      invariant CopyOf(h, seen, out.m)
      decreases |keys|
    {
      var k :| k in keys;
      ghost var m := out.m;
      CopiesAreClean(h, seen, m);
      CopyValues(out, k, h[k]);
      CopyStep(h, seen, m, k, out.m);
      keys, seen := keys - {k}, seen + {k};
    }
    assert seen == h.Keys;
  }

  /** Every map has a copy. */
  lemma SomeCopy(h: Fields) returns (m: Fields)
    ensures CopyOf(h, h.Keys, m)
  {
    m := map k | k in CopiedKeys(h, h.Keys) :: var j :| j in h && h[j] != [] && Canonical(j) == k; h[j];
    forall k | k in m ensures Canonical(k) == k {
      var j :| j in h && Canonical(j) == k;
      CanonicalTwice(j);
    }
    hide Canonical;
    forall k | Alone(h, k) && h[k] != [] ensures At(m, Canonical(k)) == Some(h[k]) {
      assert Canonical(k) in CopiedKeys(h, h.Keys);
    }
  }

  /** The copy of a clean map is the map itself. */
  lemma CopyOfClean(h: Fields, m: Fields)
    requires Clean(h) && CopyOf(h, h.Keys, m)
    ensures m == h
  {
    forall k | k in h ensures Alone(h, k) && k in CopiedKeys(h, h.Keys) {
      assert Canonical(k) == k && h[k] != [];
    }
    assert forall k | k in h :: At(m, Canonical(k)) == Some(h[k]);
    hide Canonical;
    assert m.Keys == h.Keys;
  }

  /**
   What roundtrip sends upstream: whatever the header rules left in h, the
   copy has no hop-by-hop name and nothing its Connection lines list, and a
   clean h reaches upstream as exactly its forwardable part.
  */
  lemma OutgoingIsForwardable(h: Fields, copy: Fields)
    requires CopyOf(h, h.Keys, copy)
    ensures var out := Forwardable(copy);
      && Clean(out) && Forwardable(out) == out && out.Keys !! HopByHopNames()
      && (forall k :: k in out ==> k !in Listed(OrEmpty(At(copy, "Connection"))))
      && (Clean(h) ==> out == Forwardable(h))
  {
    ForwardableIsExact(copy);
    if Clean(h) {
      CopyOfClean(h, copy);
    }
  }
}

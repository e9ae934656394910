/** Search and replace as the redirect and body_replace rules use it: bytes.ReplaceAll with a non-empty search text. */
module Rewrite {

  predicate StartsWith<T(==)>(s: seq<T>, prefix: seq<T>) {
    |prefix| <= |s| && s[..|prefix|] == prefix
  }

  /** Every occurrence replaced, from the left, none of them overlapping. */
  function ReplaceAll<T(==)>(s: seq<T>, search: seq<T>, replace: seq<T>): seq<T>
    requires search != []
  {
    if s == [] then []
    else if StartsWith(s, search) then replace + ReplaceAll(s[|search|..], search, replace)
    else [s[0]] + ReplaceAll(s[1..], search, replace)
  }

  /** The text between the occurrences that are replaced. */
  function Cut<T(==)>(s: seq<T>, search: seq<T>): (pieces: seq<seq<T>>)
    requires search != []
    ensures pieces != []
  {
    if s == [] then [[]]
    else if StartsWith(s, search) then [[]] + Cut(s[|search|..], search)
    else
      var pieces := Cut(s[1..], search);
      [[s[0]] + pieces[0]] + pieces[1..]
  }

  function Glue<T>(pieces: seq<seq<T>>, between: seq<T>): seq<T> {
    if pieces == [] then []
    else if |pieces| == 1 then pieces[0]
    else pieces[0] + between + Glue(pieces[1..], between)
  }

  predicate OccursAt<T(==)>(search: seq<T>, s: seq<T>, i: nat) {
    i + |search| <= |s| && s[i..i + |search|] == search
  }

  predicate Occurs<T(==)>(search: seq<T>, s: seq<T>) {
    exists i :: 0 <= i <= |s| && OccursAt(search, s, i)
  }

  /** No occurrence starts inside the piece, even one that reaches into the search text after it. */
  ghost predicate LeftOf<T>(piece: seq<T>, search: seq<T>) {
    forall i :: 0 <= i < |piece| ==> !OccursAt(search, piece + search, i)
  }

  /**
   The pieces of s around leftmost, non-overlapping occurrences: with the search
   text between them they are s again, each occurrence is the leftmost one in what
   is left of s, and none is left after the last.
  */
  ghost predicate IsCut<T>(pieces: seq<seq<T>>, s: seq<T>, search: seq<T>) {
    && pieces != []
    && Glue(pieces, search) == s
    && (forall i :: 0 <= i < |pieces| - 1 ==> LeftOf(pieces[i], search))
    && !Occurs(search, pieces[|pieces| - 1])
  }

  lemma GlueLonger<T>(x: T, pieces: seq<seq<T>>, between: seq<T>)
    requires pieces != []
    ensures Glue([[x] + pieces[0]] + pieces[1..], between) == [x] + Glue(pieces, between)
  {
    var longer := [[x] + pieces[0]] + pieces[1..];
    assert longer[1..] == pieces[1..];
    if |pieces| > 1 {
      var rest := Glue(pieces[1..], between);
      assert ([x] + pieces[0]) + between + rest == [x] + (pieces[0] + between + rest);
    }
  }

  lemma GlueEmpty<T>(pieces: seq<seq<T>>, between: seq<T>)
    requires pieces != []
    ensures Glue([[]] + pieces, between) == between + Glue(pieces, between)
  {
    assert ([[]] + pieces)[1..] == pieces;
  }

  /** ReplaceAll puts the replacement where the search text was, and touches nothing else. */
  lemma {:induction false} ReplaceAllGlues<T>(s: seq<T>, search: seq<T>, replace: seq<T>)
    requires search != []
    ensures ReplaceAll(s, search, replace) == Glue(Cut(s, search), replace)
    ensures s == Glue(Cut(s, search), search)
  {
    if s == [] {
    } else if StartsWith(s, search) {
      ReplaceAllGlues(s[|search|..], search, replace);
      GlueEmpty(Cut(s[|search|..], search), replace);
      GlueEmpty(Cut(s[|search|..], search), search);
    } else {
      ReplaceAllGlues(s[1..], search, replace);
      GlueLonger(s[0], Cut(s[1..], search), replace);
      GlueLonger(s[0], Cut(s[1..], search), search);
    }
  }

  lemma LongerPiece<T>(x: T, pieces: seq<seq<T>>, s: seq<T>, search: seq<T>)
    requires search != [] && pieces != [] && IsCut(pieces, s, search) && !StartsWith([x] + s, search)
    ensures IsCut([[x] + pieces[0]] + pieces[1..], [x] + s, search)
  {
    var piece := [x] + pieces[0];
    var longer := [piece] + pieces[1..];
    GlueLonger(x, pieces, search);
    if |pieces| > 1 {
      var rest := Glue(pieces[1..], search);
      assert s == pieces[0] + search + rest;
      assert [x] + s == (piece + search) + rest;
      assert LeftOf(pieces[0], search);
      assert LeftOf(piece, search) by {
        forall i | 0 <= i < |piece| ensures !OccursAt(search, piece + search, i) {
          ShiftedOccurrence(x, pieces[0] + search, search, i);
          assert piece + search == [x] + (pieces[0] + search);
          assert ([x] + s)[..|search|] == (piece + search)[..|search|];
        }
      }
      assert forall i | 0 < i < |longer| - 1 :: longer[i] == pieces[i];
      assert longer[|longer| - 1] == pieces[|pieces| - 1];
    } else {
      forall i | 0 <= i <= |piece| ensures !OccursAt(search, piece, i) {
        ShiftedOccurrence(x, pieces[0], search, i);
      }
    }
  }

  lemma ShiftedOccurrence<T>(x: T, s: seq<T>, search: seq<T>, i: nat)
    requires search != []
    ensures OccursAt(search, [x] + s, i) <==> if i == 0 then StartsWith([x] + s, search) else OccursAt(search, s, i - 1)
  {
    if 0 < i && i + |search| <= |s| + 1 {
      assert ([x] + s)[i..i + |search|] == s[i - 1..i - 1 + |search|];
    }
  }

  /** The search text is replaced at leftmost, non-overlapping occurrences. */
  lemma {:induction false} CutIsLeftmost<T>(s: seq<T>, search: seq<T>)
    requires search != []
    ensures IsCut(Cut(s, search), s, search)
  {
    if s == [] {
    } else if StartsWith(s, search) {
      var pieces := Cut(s[|search|..], search);
      CutIsLeftmost(s[|search|..], search);
      GlueEmpty(pieces, search);
      var all := [[]] + pieces;
      assert forall i | 0 < i < |all| :: all[i] == pieces[i - 1];
    } else {
      CutIsLeftmost(s[1..], search);
      LongerPiece(s[0], Cut(s[1..], search), s[1..], search);
    }
  }

  /** There is only one such cut. */
  lemma {:induction false} CutIsUnique<T>(s: seq<T>, search: seq<T>, pieces: seq<seq<T>>, others: seq<seq<T>>)
    requires search != [] && IsCut(pieces, s, search) && IsCut(others, s, search)
    ensures pieces == others
    decreases |pieces|
  {
    if |pieces| == 1 {
      OneOccurrence(others, s, search);
    } else if |others| == 1 {
      OneOccurrence(pieces, s, search);
    } else {
      SameFirst(pieces, others, s, search);
      assert Glue(pieces[1..], search) == s[|pieces[0]| + |search|..] == Glue(others[1..], search);
      CutTail(pieces, s, search);
      CutTail(others, s, search);
      CutIsUnique(s[|pieces[0]| + |search|..], search, pieces[1..], others[1..]);
    }
  }

  lemma CutTail<T>(pieces: seq<seq<T>>, s: seq<T>, search: seq<T>)
    requires search != [] && |pieces| > 1 && IsCut(pieces, s, search)
    ensures |pieces[0]| + |search| <= |s| && IsCut(pieces[1..], s[|pieces[0]| + |search|..], search)
    ensures OccursAt(search, s, |pieces[0]|)
  {
    var tail := pieces[1..];
    assert s == (pieces[0] + search) + Glue(tail, search);
    assert forall i | 0 <= i < |tail| :: tail[i] == pieces[i + 1];
    assert s[|pieces[0]|..|pieces[0]| + |search|] == search;
  }

  lemma OneOccurrence<T>(pieces: seq<seq<T>>, s: seq<T>, search: seq<T>)
    requires search != [] && IsCut(pieces, s, search) && !Occurs(search, s)
    ensures |pieces| == 1
  {
    if |pieces| > 1 {
      CutTail(pieces, s, search);
    }
  }

  lemma SameFirst<T>(pieces: seq<seq<T>>, others: seq<seq<T>>, s: seq<T>, search: seq<T>)
    requires search != [] && |pieces| > 1 && |others| > 1 && IsCut(pieces, s, search) && IsCut(others, s, search)
    ensures pieces[0] == others[0]
  {
    CutTail(pieces, s, search);
    CutTail(others, s, search);
    if |pieces[0]| < |others[0]| {
      NotInside(others, s, search, |pieces[0]|);
    } else if |others[0]| < |pieces[0]| {
      NotInside(pieces, s, search, |others[0]|);
    } else {
      assert pieces[0] == s[..|pieces[0]|] == others[0];
    }
  }

  lemma NotInside<T>(pieces: seq<seq<T>>, s: seq<T>, search: seq<T>, i: nat)
    requires search != [] && |pieces| > 1 && IsCut(pieces, s, search) && i < |pieces[0]|
    ensures !OccursAt(search, s, i)
  {
    var text := pieces[0] + search;
    assert s == text + Glue(pieces[1..], search);
    assert LeftOf(pieces[0], search) && !OccursAt(search, text, i);
    assert s[i..i + |search|] == text[i..i + |search|];
  }

  /** ReplaceAll is the one text that has the replacement wherever such a cut has the search text. */
  lemma ReplaceAllMeaning<T>(s: seq<T>, search: seq<T>, replace: seq<T>, pieces: seq<seq<T>>)
    requires search != [] && IsCut(pieces, s, search)
    ensures ReplaceAll(s, search, replace) == Glue(pieces, replace)
  {
    CutIsLeftmost(s, search);
    CutIsUnique(s, search, pieces, Cut(s, search));
    ReplaceAllGlues(s, search, replace);
  }

  // ---- lengths, and when the text changes -------------------------------------------------

  function Occurrences<T(==)>(s: seq<T>, search: seq<T>): nat
    requires search != []
  {
    |Cut(s, search)| - 1
  }

  lemma {:induction false} GlueLength<T>(pieces: seq<seq<T>>, a: seq<T>, b: seq<T>)
    requires pieces != []
    ensures |Glue(pieces, b)| - |Glue(pieces, a)| == (|pieces| - 1) * (|b| - |a|)
  {
    if |pieces| > 1 {
      GlueLength(pieces[1..], a, b);
      assert (|pieces| - 2) * (|b| - |a|) + (|b| - |a|) == (|pieces| - 1) * (|b| - |a|);
    }
  }

  /** len(out) = len(in) + n * (len(replace) - len(search)). */
  lemma LengthLaw<T>(s: seq<T>, search: seq<T>, replace: seq<T>)
    requires search != []
    ensures |ReplaceAll(s, search, replace)| == |s| + Occurrences(s, search) * (|replace| - |search|)
  {
    ReplaceAllGlues(s, search, replace);
    GlueLength(Cut(s, search), search, replace);
  }

  lemma GlueDiffers<T>(pieces: seq<seq<T>>, a: seq<T>, b: seq<T>)
    requires |pieces| > 1 && a != b
    ensures Glue(pieces, a) != Glue(pieces, b)
  {
    if |a| == |b| {
      var n := |pieces[0]|;
      assert Glue(pieces, a)[n..n + |a|] == a;
      assert Glue(pieces, b)[n..n + |a|] == b;
    } else {
      GlueLength(pieces, a, b);
      assert (|pieces| - 1) * (|b| - |a|) != 0;
    }
  }

  /** The result differs from the input exactly when the search text occurs and is not its own replacement. */
  lemma ChangesExactlyWhenFound<T>(s: seq<T>, search: seq<T>, replace: seq<T>)
    requires search != []
    ensures ReplaceAll(s, search, replace) != s <==> Occurs(search, s) && search != replace
  {
    var pieces := Cut(s, search);
    ReplaceAllGlues(s, search, replace);
    CutIsLeftmost(s, search);
    if |pieces| > 1 {
      CutTail(pieces, s, search);
      assert Occurs(search, s);
      if search != replace {
        GlueDiffers(pieces, search, replace);
      }
    }
  }
}

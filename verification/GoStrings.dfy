/**
 The functions of Go's strings and net/textproto packages that the rules use.
 Strings are sequences of code points.
*/
module GoStrings {

  // ---- Split and Join ---------------------------------------------------------------

  /** strings.Split with a one-character separator. */
  function Split(s: string, sep: char): (parts: seq<string>)
    ensures parts != []
    ensures forall p :: p in parts ==> sep !in p
  {
    if s == [] then [[]]
    else
      var parts := Split(s[1..], sep);
      if s[0] == sep then [[]] + parts else Onto(s[0], parts)
  }

  /** The first part, longer by one character in front. */
  function Onto(c: char, parts: seq<string>): seq<string>
    requires parts != []
  {
    [[c] + parts[0]] + parts[1..]
  }

  lemma OntoAppend(c: char, p: seq<string>, q: seq<string>)
    requires p != []
    ensures Onto(c, p + q) == Onto(c, p) + q
  {
    assert (p + q)[1..] == p[1..] + q;
  }

  lemma OntoOne(c: char, part: string, rest: seq<string>)
    ensures Onto(c, [part] + rest) == [[c] + part] + rest
  {
  }

  /** strings.Join with a one-character separator. */
  function Join(parts: seq<string>, sep: char): string {
    if parts == [] then []
    else if |parts| == 1 then parts[0]
    else parts[0] + [sep] + Join(parts[1..], sep)
  }

  lemma {:induction false} SplitPart(part: string, rest: string, sep: char)
    requires sep !in part
    ensures Split(part + [sep] + rest, sep) == [part] + Split(rest, sep)
  {
    if part == [] {
      assert part + [sep] + rest == [sep] + rest;
    } else {
      assert (part + [sep] + rest)[1..] == part[1..] + [sep] + rest;
      SplitPart(part[1..], rest, sep);
      OntoOne(part[0], part[1..], Split(rest, sep));
      assert [part[0]] + part[1..] == part;
    }
  }

  lemma {:induction false} SplitWhole(part: string, sep: char)
    requires sep !in part
    ensures Split(part, sep) == [part]
  {
    if part != [] {
      SplitWhole(part[1..], sep);
      OntoOne(part[0], part[1..], []);
      assert [part[0]] + part[1..] == part;
    }
  }

  /** Splitting undoes joining. */
  lemma {:induction false} SplitJoin(parts: seq<string>, sep: char)
    requires parts != [] && forall p :: p in parts ==> sep !in p
    ensures Split(Join(parts, sep), sep) == parts
  {
    if |parts| == 1 {
      SplitWhole(parts[0], sep);
    } else {
      SplitJoin(parts[1..], sep);
      SplitPart(parts[0], Join(parts[1..], sep), sep);
    }
  }

  /** Splitting a line made of two lines gives the parts of both. */
  lemma {:induction false} SplitAppend(a: string, b: string, sep: char)
    ensures Split(a + [sep] + b, sep) == Split(a, sep) + Split(b, sep)
  {
    if a == [] {
      assert a + [sep] + b == [sep] + b;
    } else {
      assert (a + [sep] + b)[1..] == a[1..] + [sep] + b;
      SplitAppend(a[1..], b, sep);
      hide Onto;
      OntoAppend(a[0], Split(a[1..], sep), Split(b, sep));
      assert [[]] + (Split(a[1..], sep) + Split(b, sep)) == [[]] + Split(a[1..], sep) + Split(b, sep);
    }
  }

  /** Joining undoes splitting. */
  lemma {:induction false} JoinSplit(s: string, sep: char)
    ensures Join(Split(s, sep), sep) == s
  {
    if s != [] {
      var parts := Split(s[1..], sep);
      JoinSplit(s[1..], sep);
      if s[0] == sep {
        assert ([[]] + parts)[1..] == parts;
        assert [] + [sep] + s[1..] == s;
      } else {
        assert Onto(s[0], parts)[1..] == parts[1..];
        assert [s[0]] + s[1..] == s;
        if |parts| > 1 {
          assert ([s[0]] + parts[0]) + [sep] + Join(parts[1..], sep) == [s[0]] + (parts[0] + [sep] + Join(parts[1..], sep));
        }
      }
    }
  }

  /** Two texts that agree, cut at their first separator or at their end, agree on both sides. */
  lemma CutUnique(a: string, x: string, b: string, y: string, sep: char)
    requires sep !in a && sep !in b && (x == [] || x[0] == sep) && (y == [] || y[0] == sep)
    requires a + x == b + y
    ensures a == b && x == y
  {
    FirstPart(a, x, sep);
    FirstPart(b, y, sep);
    assert x == (a + x)[|a|..] == (b + y)[|b|..] == y;
  }

  lemma FirstPart(a: string, x: string, sep: char)
    requires sep !in a && (x == [] || x[0] == sep)
    ensures Split(a + x, sep)[0] == a
  {
    if x == [] {
      assert a + x == a;
      SplitWhole(a, sep);
    } else {
      assert a + x == a + [sep] + x[1..];
      SplitPart(a, x[1..], sep);
    }
  }

  // ---- white space --------------------------------------------------------------------

  /** unicode.IsSpace. */
  predicate IsSpace(c: char) {
    '\t' <= c <= '\r' || c == ' ' || c == '\U{85}' || c == '\U{A0}' || c == '\U{1680}' || '\U{2000}' <= c <= '\U{200A}' ||
    c == '\U{2028}' || c == '\U{2029}' || c == '\U{202F}' || c == '\U{205F}' || c == '\U{3000}'
  }

  /** The code points with the White_Space property of Unicode. */
  lemma SpaceMeaning(c: char)
    ensures IsSpace(c) <==> c as int in {
      9, 10, 11, 12, 13, 32, 133, 160, 5760, 8192, 8193, 8194, 8195, 8196, 8197, 8198, 8199, 8200, 8201, 8202,
      8232, 8233, 8239, 8287, 12288}
  {
  }

  function TrimLeft(s: string): (t: string)
    ensures t == [] || !IsSpace(t[0])
  {
    if s != [] && IsSpace(s[0]) then TrimLeft(s[1..]) else s
  }

  function TrimRight(s: string): (t: string)
    ensures t == [] || !IsSpace(t[|t| - 1])
  {
    if s != [] && IsSpace(s[|s| - 1]) then TrimRight(s[..|s| - 1]) else s
  }

  /** strings.TrimSpace. */
  function TrimSpace(s: string): string {
    TrimRight(TrimLeft(s))
  }

  predicate Blank(s: string) {
    forall c :: c in s ==> IsSpace(c)
  }

  lemma {:induction false} TrimLeftCut(s: string) returns (before: string)
    ensures Blank(before) && s == before + TrimLeft(s)
  {
    before := [];
    if s != [] && IsSpace(s[0]) {
      var rest := TrimLeftCut(s[1..]);
      before := [s[0]] + rest;
    }
  }

  lemma {:induction false} TrimRightCut(s: string) returns (after: string)
    ensures Blank(after) && s == TrimRight(s) + after
    ensures TrimRight(s) != [] ==> TrimRight(s)[0] == s[0]
  {
    after := [];
    if s != [] && IsSpace(s[|s| - 1]) {
      var rest := TrimRightCut(s[..|s| - 1]);
      after := rest + [s[|s| - 1]];
    }
  }

  /** TrimSpace takes white space off both ends, all of it and nothing else. */
  lemma TrimSpaceMeaning(s: string) returns (before: string, after: string)
    ensures Blank(before) && Blank(after) && s == before + TrimSpace(s) + after
    ensures var t := TrimSpace(s); t != [] ==> !IsSpace(t[0]) && !IsSpace(t[|t| - 1])
  {
    before := TrimLeftCut(s);
    after := TrimRightCut(TrimLeft(s));
  }

  lemma {:induction false} TrimPadding(pad: string, s: string)
    requires Blank(pad)
    ensures TrimSpace(pad + s) == TrimSpace(s)
  {
    if pad == [] {
      assert pad + s == s;
    } else {
      assert (pad + s)[1..] == pad[1..] + s;
      TrimPadding(pad[1..], s);
    }
  }

  // ---- letter case ----------------------------------------------------------------------

  function Upper(c: char): char {
    if 'a' <= c <= 'z' then (c as int - 32) as char else c
  }

  function Lower(c: char): char {
    if 'A' <= c <= 'Z' then (c as int + 32) as char else c
  }

  function ToLower(s: string): string {
    seq(|s|, i requires 0 <= i < |s| => Lower(s[i]))
  }

  /** The bytes of a header field name, section 5.6.2 of RFC 9110. */
  predicate IsTokenChar(c: char) {
    c == '!' || '#' <= c <= '\'' || c == '*' || c == '+' || c == '-' || c == '.' || '0' <= c <= '9' ||
    'A' <= c <= 'Z' || '^' <= c <= 'z' || c == '|' || c == '~'
  }

  predicate IsToken(s: string) {
    forall i :: 0 <= i < |s| ==> IsTokenChar(s[i])
  }

  /** Upper case at the start and after each hyphen, lower case elsewhere. */
  function CasedAt(s: string, i: nat): char
    requires i < |s|
  {
    if i == 0 || s[i - 1] == '-' then Upper(s[i]) else Lower(s[i])
  }

  function Cased(s: string): string {
    seq(|s|, i requires 0 <= i < |s| => CasedAt(s, i))
  }

  /** http.CanonicalHeaderKey. */
  function Canonical(name: string): string {
    if IsToken(name) then Cased(name) else name
  }

  lemma CanonicalTwice(name: string)
    ensures Canonical(Canonical(name)) == Canonical(name)
  {
    if IsToken(name) {
      var once := Cased(name);
      assert forall i | 0 <= i < |once| :: IsTokenChar(once[i]) && CasedAt(once, i) == once[i];
      assert Cased(once) == once;
    }
  }

  /** The same character, or the same ASCII letter in the other case. */
  predicate SameLetter(a: char, b: char) {
    || a == b
    || ('a' <= a <= 'z' && a as int - 32 == b as int)
    || ('a' <= b <= 'z' && b as int - 32 == a as int)
  }

  predicate SameLetters(a: string, b: string) {
    |a| == |b| && forall i :: 0 <= i < |a| ==> SameLetter(a[i], b[i])
  }

  /**
   The canonical form of a name has the same letters, upper case at the start
   and after a hyphen and lower case elsewhere; what is no token is left alone.
  */
  lemma CanonicalMeaning(name: string)
    ensures !IsToken(name) ==> Canonical(name) == name
    ensures IsToken(name) ==>
      && SameLetters(Canonical(name), name)
      && forall i :: 0 <= i < |name| ==>
           if i == 0 || name[i - 1] == '-' then !('a' <= Canonical(name)[i] <= 'z') else !('A' <= Canonical(name)[i] <= 'Z')
  {
  }

  /** Names of one token in different letter case have one canonical form. */
  lemma LetterCaseIsIrrelevant(a: string, b: string)
    requires IsToken(a) && IsToken(b) && SameLetters(a, b)
    ensures Canonical(a) == Canonical(b)
  {
    forall i | 0 <= i < |a| ensures CasedAt(a, i) == CasedAt(b, i) {
      if i > 0 {
        assert SameLetter(a[i - 1], b[i - 1]);
      }
      assert SameLetter(a[i], b[i]);
    }
    assert Cased(a) == Cased(b);
  }

  /** Lower-case forms agree exactly for texts with the same letters. */
  lemma ToLowerMeaning(a: string, b: string)
    ensures ToLower(a) == ToLower(b) <==> SameLetters(a, b)
  {
    assert |ToLower(a)| == |a| && |ToLower(b)| == |b|;
    forall i | 0 <= i < |a| && i < |b| ensures SameLetter(a[i], b[i]) <==> ToLower(a)[i] == ToLower(b)[i] {
    }
  }

  /** The characters of s from i on are in place: token characters, each in the right case. */
  predicate InPlace(s: string, i: nat)
    decreases |s| - i
  {
    i >= |s| ||
    (IsTokenChar(s[i]) &&
     (if i == 0 || s[i - 1] == '-' then !('a' <= s[i] <= 'z') else !('A' <= s[i] <= 'Z')) &&
     InPlace(s, i + 1))
  }

  lemma {:induction false} InPlaceAt(s: string, i: nat, j: nat)
    requires InPlace(s, i) && i <= j < |s|
    ensures IsTokenChar(s[j]) && CasedAt(s, j) == s[j]
    decreases |s| - i
  {
    if i < j {
      InPlaceAt(s, i + 1, j);
    }
  }

  lemma AlreadyCanonical(name: string, i: nat)
    requires i == 0 && InPlace(name, i)
    ensures Canonical(name) == name
  {
    forall j | 0 <= j < |name| ensures IsTokenChar(name[j]) && CasedAt(name, j) == name[j] {
      InPlaceAt(name, i, j);
    }
    assert Cased(name) == name;
  }

  // ---- decimal numbers --------------------------------------------------------------------

  /** strconv.Itoa of a length. */
  function Decimal(n: nat): (s: string)
    ensures s != []
  {
    var last := ['0' + (n % 10) as char];
    if n < 10 then last else Decimal(n / 10) + last
  }

  function ParseDecimal(s: string): int {
    if s == [] then 0 else 10 * ParseDecimal(s[..|s| - 1]) + (s[|s| - 1] as int - '0' as int)
  }

  /** Digits only, and no zero in front of another digit. */
  lemma {:induction false} DecimalIsShortest(n: nat)
    ensures forall i :: 0 <= i < |Decimal(n)| ==> '0' <= Decimal(n)[i] <= '9'
    ensures n > 0 ==> Decimal(n)[0] != '0'
    ensures n == 0 ==> Decimal(n) == "0"
  {
    if n >= 10 {
      DecimalIsShortest(n / 10);
    }
  }

  /** The text of a length says which length it is. */
  lemma {:induction false} DecimalRoundTrip(n: nat)
    ensures ParseDecimal(Decimal(n)) == n
  {
    if n < 10 {
      assert ParseDecimal([]) == 0;
    } else {
      DecimalRoundTrip(n / 10);
      assert Decimal(n)[..|Decimal(n)| - 1] == Decimal(n / 10);
    }
  }
}

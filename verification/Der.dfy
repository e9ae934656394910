/**
 The Distinguished Encoding Rules as far as pkg/p12/p12.go uses them through
 encoding/asn1: tag-length-value elements (sections 8.1.3 and 10.1 of X.690),
 INTEGER and OBJECT IDENTIFIER contents, and a strict reader for each.
 */
module Der {
  import opened Prelude
  import opened Bytes

  datatype Element = Element(tag: byte, content: seq<byte>)

  // ---- writing ---------------------------------------------------------------

  /** The number of base-256 digits of n. */
  function DigitCount(n: nat): (k: nat)
    ensures k >= 1
  {
    if n < 256 then 1 else 1 + DigitCount(n / 256)
  }

  function LengthOctets(n: nat): seq<byte> {
    if n < 128 then [n]
    else [(128 + DigitCount(n)) % 256] + ToBigEndian(n, DigitCount(n))
  }

  function Tlv(tag: byte, content: seq<byte>): seq<byte> {
    [tag] + LengthOctets(|content|) + content
  }

  function WriteElements(es: seq<Element>): seq<byte> {
    if es == [] then [] else Tlv(es[0].tag, es[0].content) + WriteElements(es[1..])
  }

  /** Two's complement octets of a non-negative INTEGER. */
  function IntegerOctets(n: nat): seq<byte> {
    var digits := ToBigEndian(n, DigitCount(n));
    if digits[0] >= 128 then [0] + digits else digits
  }

  /** Base-128 digits of n, every octet marked as continued. */
  function Continued(n: nat): seq<byte> {
    if n < 128 then [128 + n] else Continued(n / 128) + [128 + n % 128]
  }

  function Base128(n: nat): seq<byte> {
    if n < 128 then [n] else Continued(n / 128) + [n % 128]
  }

  function Base128All(ns: seq<nat>): seq<byte> {
    if ns == [] then [] else Base128(ns[0]) + Base128All(ns[1..])
  }

  type Oid = arcs: seq<nat> | |arcs| >= 2 && arcs[0] < 2 && arcs[1] < 40 witness [1, 2]

  function OidOctets(arcs: Oid): seq<byte> {
    Base128All([40 * arcs[0] + arcs[1]] + arcs[2..])
  }

  // ---- reading ---------------------------------------------------------------

  /** The first element of s and what follows it. */
  function ReadElement(s: seq<byte>): (r: Option<(Element, seq<byte>)>)
    ensures r.Some? ==> |r.value.1| < |s|
  {
    if |s| < 2 then None
    else if s[1] < 128 then SplitContent(s[0], s[1], s[2..])
    else
      var k := s[1] - 128;
      if k == 0 || |s| < 2 + k || s[2] == 0 then None
      else
        var n := BigEndian(s[2..2 + k]);
        if n < 128 then None else SplitContent(s[0], n, s[2 + k..])
  }

  function SplitContent(tag: byte, n: nat, s: seq<byte>): (r: Option<(Element, seq<byte>)>)
    ensures r.Some? ==> |r.value.1| <= |s|
  {
    if |s| < n then None else Some((Element(tag, s[..n]), s[n..]))
  }

  /** All the elements s consists of. */
  function ReadElements(s: seq<byte>): Option<seq<Element>>
    decreases |s|
  {
    if s == [] then Some([])
    else
      var (e, rest) :- ReadElement(s);
      var es :- ReadElements(rest);
      Some([e] + es)
  }

  function ReadInteger(s: seq<byte>): Option<nat> {
    if s == [] || s[0] >= 128 || (|s| > 1 && s[0] == 0 && s[1] < 128) then None
    else Some(BigEndian(s))
  }

  function ReadBase128(s: seq<byte>, high: nat): (r: Option<(nat, seq<byte>)>)
    ensures r.Some? ==> |r.value.1| < |s|
  {
    if s == [] then None
    else if s[0] < 128 then Some((128 * high + s[0], s[1..]))
    else ReadBase128(s[1..], 128 * high + (s[0] - 128))
  }

  function ReadBase128All(s: seq<byte>): Option<seq<nat>>
    decreases |s|
  {
    if s == [] then Some([])
    else
      var (n, rest) :- ReadBase128(s, 0);
      var ns :- ReadBase128All(rest);
      Some([n] + ns)
  }

  function ReadOid(s: seq<byte>): Option<Oid> {
    var ns :- ReadBase128All(s);
    if ns == [] || ns[0] >= 80 then None
    else Some([ns[0] / 40, ns[0] % 40] + ns[1..])
  }

  // ---- round trips ---------------------------------------------------------------

  /** Slices and maps are indexed by a 63-bit int; lengths beyond that do not occur. */
  predicate Fits(n: nat) {
    n < 0x8000_0000_0000_0000
  }

  lemma {:induction false} DigitCountBound(n: nat, k: nat)
    requires k >= 1 && n < Shift(1, k)
    ensures DigitCount(n) <= k
  {
    if n >= 256 {
      DigitCountBound(n / 256, k - 1);
    }
  }

  /** The digit count is enough, and the leading digit is not zero. */
  lemma {:induction false} DigitCountFits(n: nat)
    ensures n < Shift(1, DigitCount(n))
    ensures n > 0 ==> ToBigEndian(n, DigitCount(n))[0] != 0
  {
    if n >= 256 {
      DigitCountFits(n / 256);
      var k := DigitCount(n / 256);
      assert ToBigEndian(n, k + 1)[0] == ToBigEndian(n / 256, k)[0];
    } else {
      assert Shift(1, 1) == 256 * Shift(1, 0);
      assert ToBigEndian(n, 1) == ToBigEndian(n / 256, 0) + [n % 256];
    }
  }

  lemma LengthSize(n: nat)
    requires Fits(n)
    ensures |LengthOctets(n)| <= 9
    ensures n >= 128 ==> DigitCount(n) <= 8
  {
    assert Shift(1, 8) == 0x1_0000_0000_0000_0000;
    DigitCountBound(n, 8);
  }

  /** An element is read back whole, and reading stops right after it. */
  lemma ElementRoundTrip(tag: byte, content: seq<byte>, rest: seq<byte>)
    requires Fits(|content|)
    ensures ReadElement(Tlv(tag, content) + rest) == Some((Element(tag, content), rest))
  {
    hide ReadElement, ToBigEndian, DigitCount, Shift, BigEndian;
    if |content| < 128 {
      ShortFormReads(tag, content, rest);
    } else {
      LengthSize(|content|);
      DigitCountFits(|content|);
      ValueOf(|content|, DigitCount(|content|));
      LongFormReads(tag, ToBigEndian(|content|, DigitCount(|content|)), content, rest);
    }
  }

  lemma ShortFormReads(tag: byte, content: seq<byte>, rest: seq<byte>)
    requires |content| < 128
    ensures ReadElement([tag] + [|content|] + content + rest) == Some((Element(tag, content), rest))
  {
    var s := [tag] + [|content|] + content + rest;
    assert s[2..] == content + rest;
    assert (content + rest)[..|content|] == content && (content + rest)[|content|..] == rest;
  }

  lemma LongFormReads(tag: byte, digits: seq<byte>, content: seq<byte>, rest: seq<byte>)
    requires 0 < |digits| <= 8 && digits[0] != 0 && BigEndian(digits) == |content| >= 128
    ensures ReadElement([tag] + ([128 + |digits|] + digits) + content + rest) == Some((Element(tag, content), rest))
  {
    var s := [tag] + ([128 + |digits|] + digits) + content + rest;
    Cut([tag, 128 + |digits|], digits, content + rest);
    assert s == [tag, 128 + |digits|] + digits + (content + rest);
    assert (content + rest)[..|content|] == content && (content + rest)[|content|..] == rest;
  }

  lemma Cut(a: seq<byte>, b: seq<byte>, c: seq<byte>)
    ensures (a + b + c)[|a|..|a| + |b|] == b && (a + b + c)[|a| + |b|..] == c
  {
  }

  lemma {:induction false} ElementsRoundTrip(es: seq<Element>)
    requires forall e :: e in es ==> Fits(|e.content|)
    ensures ReadElements(WriteElements(es)) == Some(es)
  {
    if es != [] {
      ElementsRoundTrip(es[1..]);
      ElementRoundTrip(es[0].tag, es[0].content, WriteElements(es[1..]));
      assert [es[0]] + es[1..] == es;
    }
  }

  lemma IntegerRoundTrip(n: nat)
    ensures ReadInteger(IntegerOctets(n)) == Some(n)
  {
    hide ToBigEndian, Shift;
    var k := DigitCount(n);
    var digits := ToBigEndian(n, k);
    DigitCountFits(n);
    ValueOf(n, k);
    if digits[0] >= 128 {
      BigEndianCons(0, digits);
      ShiftZero(k);
    } else if n == 0 {
      assert |digits| == 1;
    }
  }

  lemma {:induction false} ContinuedRoundTrip(n: nat, rest: seq<byte>)
    ensures ReadBase128(Continued(n) + rest, 0) == ReadBase128(rest, n)
  {
    if n < 128 {
      assert (Continued(n) + rest)[1..] == rest;
    } else {
      ContinuedRoundTrip(n / 128, [128 + n % 128] + rest);
      assert Continued(n) + rest == Continued(n / 128) + ([128 + n % 128] + rest);
      assert ([128 + n % 128] + rest)[1..] == rest;
    }
  }

  lemma Base128RoundTrip(n: nat, rest: seq<byte>)
    ensures ReadBase128(Base128(n) + rest, 0) == Some((n, rest))
  {
    if n < 128 {
      assert (Base128(n) + rest)[1..] == rest;
    } else {
      ContinuedRoundTrip(n / 128, [n % 128] + rest);
      assert Base128(n) + rest == Continued(n / 128) + ([n % 128] + rest);
      assert ([n % 128] + rest)[1..] == rest;
    }
  }

  lemma {:induction false} Base128AllRoundTrip(ns: seq<nat>)
    ensures ReadBase128All(Base128All(ns)) == Some(ns)
  {
    if ns != [] {
      Base128AllRoundTrip(ns[1..]);
      Base128RoundTrip(ns[0], Base128All(ns[1..]));
      assert [ns[0]] + ns[1..] == ns;
    }
  }

  /** Different identifiers have different octets, because the octets can be read back. */
  lemma OidRoundTrip(arcs: Oid)
    ensures ReadOid(OidOctets(arcs)) == Some(arcs)
  {
    Base128AllRoundTrip([40 * arcs[0] + arcs[1]] + arcs[2..]);
    assert [arcs[0], arcs[1]] + arcs[2..] == arcs;
  }

  lemma TlvSize(tag: byte, content: seq<byte>)
    requires Fits(|content|)
    ensures |content| < |Tlv(tag, content)| <= |content| + 10
  {
    LengthSize(|content|);
  }
}

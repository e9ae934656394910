/**
 The PKCS#12 bundle of pkg/p12/p12.go: Encode and its helpers, and a reader that
 follows section 4 of RFC 7292. SHA-1, HMAC, triple-DES in CBC mode, PKCS#8
 marshalling and the random salts are parameters.
 */
module Pkcs12 {
  import opened Prelude
  import opened Bytes
  import opened Der
  import opened Pkcs12Kdf

  const DATA: Oid := [1, 2, 840, 113549, 1, 7, 1]
  const CERT_BAG: Oid := [1, 2, 840, 113549, 1, 12, 10, 1, 3]
  const KEY_BAG: Oid := [1, 2, 840, 113549, 1, 12, 10, 1, 2]
  const X509_CERT: Oid := [1, 2, 840, 113549, 1, 9, 22, 1]
  const LOCAL_KEY_ID: Oid := [1, 2, 840, 113549, 1, 9, 21]
  const PBE_3DES: Oid := [1, 2, 840, 113549, 1, 12, 1, 3]
  const SHA1: Oid := [1, 3, 14, 3, 2, 26]

  const ITERATIONS := 2048

  type Salt = s: seq<byte> | |s| == 8 witness seq(8, _ => 0)

  /** The primitives: SHA-1, HMAC-SHA1, and CBC encryption and decryption by key and IV. */
  datatype Crypto = Crypto(
    sha1: Hash,
    hmac: (seq<byte>, seq<byte>) -> Digest,
    encrypt: (seq<byte>, seq<byte>, seq<byte>) -> seq<byte>,
    decrypt: (seq<byte>, seq<byte>, seq<byte>) -> seq<byte>)

  /** Decryption undoes encryption, which keeps the length. */
  ghost predicate IsCipher(c: Crypto) {
    forall key, iv, data ::
      c.decrypt(key, iv, c.encrypt(key, iv, data)) == data && |c.encrypt(key, iv, data)| == |data|
  }

  // ---- padding and password ----------------------------------------------------------

  function PadLength(n: nat, blockSize: nat): (pad: nat)
    requires blockSize > 0
    ensures 1 <= pad <= blockSize
  {
    blockSize - n % blockSize
  }

  /** Section 6.3 of RFC 5652: k octets of value k up to a whole number of blocks. */
  function Padded(data: seq<byte>, blockSize: nat): seq<byte>
    requires 0 < blockSize < 256
  {
    data + seq(PadLength(|data|, blockSize), _ => PadLength(|data|, blockSize))
  }

  /** Section 6.3 of RFC 5652, undone. */
  function Unpadded(s: seq<byte>): Option<seq<byte>> {
    if s == [] then None
    else
      var pad := s[|s| - 1];
      if pad == 0 || pad > |s| || s[|s| - pad..] != seq(pad, _ => pad) then None
      else Some(s[..|s| - pad])
  }

  lemma PaddingRoundTrip(data: seq<byte>, blockSize: nat)
    requires 0 < blockSize < 256
    ensures Unpadded(Padded(data, blockSize)) == Some(data)
    ensures |data| < |Padded(data, blockSize)| <= |data| + blockSize
    ensures |Padded(data, blockSize)| % blockSize == 0
  {
    var n := |data|;
    var pad := PadLength(n, blockSize);
    assert Padded(data, blockSize)[n..] == seq(pad, _ => pad);
    assert Padded(data, blockSize)[..n] == data;
    var q, r := DivMod(n, blockSize);
    assert n + pad == blockSize * (q + 1) + 0;
    ModUnique(n + pad, blockSize, q + 1, 0);
  }

  /** The data byte for byte, then bytes that each say how many of them there are. */
  lemma PaddedBytes(data: seq<byte>, blockSize: nat, k: nat)
    requires 0 < blockSize < 256 && k < |Padded(data, blockSize)|
    ensures var pad := |Padded(data, blockSize)| - |data|;
      pad == blockSize - |data| % blockSize && Padded(data, blockSize)[k] == if k < |data| then data[k] else pad
  {
  }

  /** pkcs7Pad. */
  method Pkcs7Pad(data: seq<byte>, blockSize: nat) returns (out: array<byte>)
    requires 0 < blockSize < 256
    ensures fresh(out) && out[..] == Padded(data, blockSize)
  {
    var pad := blockSize - |data| % blockSize;
    out := new byte[|data| + pad];
    forall k | 0 <= k < |data| {
      out[k] := data[k];
    }
    for i := |data| to out.Length
      invariant forall k :: 0 <= k < |data| ==> out[k] == data[k]
      invariant forall k :: |data| <= k < i ==> out[k] == pad
    {
      out[i] := pad;
    }
  }

  /** A Unicode code point that UTF-8 can encode. */
  type Rune = c: int | 0 <= c < 0x11_0000

  /** How many bytes UTF-8 spends on c. */
  function Width(c: Rune): nat {
    if c < 0x80 then 1 else if c < 0x800 then 2 else if c < 0x1_0000 then 3 else 4
  }

  /** len(s) in Go: the UTF-8 bytes of the string. */
  function ByteLength(s: seq<Rune>): nat {
    if s == [] then 0 else ByteLength(s[..|s| - 1]) + Width(s[|s| - 1])
  }

  /** Appendix B.1 of RFC 7292: UTF-16BE with a terminating zero, for the basic plane. */
  function BmpString(s: seq<Rune>): (b: seq<byte>)
    requires InBasicPlane(s)
    ensures |b| == 2 * |s| + 2
  {
    if s == [] then [0, 0] else [s[0] / 256, s[0] % 256] + BmpString(s[1..])
  }

  predicate InBasicPlane(s: seq<Rune>) {
    forall i :: 0 <= i < |s| ==> s[i] < 0x1_0000
  }

  predicate IsAscii(s: seq<Rune>) {
    forall i :: 0 <= i < |s| ==> s[i] < 0x80
  }

  /** What passwordBytes leaves in its buffer: each rune at twice its byte offset, zeros elsewhere. */
  function PasswordBuffer(s: seq<Rune>): (b: seq<byte>)
    ensures |b| == 2 * ByteLength(s) + 2
  {
    if s == [] then [0, 0]
    else
      var c := s[|s| - 1];
      var b := PasswordBuffer(s[..|s| - 1]);
      b[..|b| - 2] + [c / 256 % 256, c % 256] + Zeros(2 * Width(c))
  }

  /** UTF-8 spends one byte up to U+007F, two up to U+07FF, three up to U+FFFF and four beyond, section 3 of RFC 3629. */
  lemma WidthMeaning(c: Rune, d: Rune)
    ensures c <= d ==> Width(c) <= Width(d)
    ensures Width(0) == Width(0x7F) == 1 && Width(0x80) == Width(0x7FF) == 2
    ensures Width(0x800) == Width(0xFFFF) == 3 && Width(0x1_0000) == Width(0x10_FFFF) == 4
  {
  }

  function Zeros(n: nat): (z: seq<byte>)
    ensures |z| == n && forall i :: 0 <= i < n ==> z[i] == 0
  {
    seq(n, _ => 0)
  }

  /** passwordBytes. */
  method PasswordBytes(s: seq<Rune>) returns (b: array<byte>)
    ensures fresh(b) && b[..] == PasswordBuffer(s)
  {
    b := new byte[2 * ByteLength(s) + 2](_ => 0);
    var offset := 0;
    var n := 0;
    while n < |s|
      invariant n <= |s| && offset == ByteLength(s[..n]) && offset <= ByteLength(s)
      invariant b[..2 * offset + 2] == PasswordBuffer(s[..n])
      invariant forall k :: 2 * offset <= k < b.Length ==> b[k] == 0
    {
      var c := s[n];
      assert s[..n + 1][..n] == s[..n];
      ByteLengthPrefix(s, n + 1);
      ghost var was := b[..2 * offset + 2];
      b[2 * offset] := c / 256 % 256;
      b[2 * offset + 1] := c % 256;
      offset := offset + Width(c);
      n := n + 1;
      assert b[..2 * offset + 2] == was[..|was| - 2] + [c / 256 % 256, c % 256] + Zeros(2 * Width(c));
    }
    assert s[..n] == s;
  }

  lemma {:induction false} ByteLengthPrefix(s: seq<Rune>, n: nat)
    requires n <= |s|
    ensures ByteLength(s[..n]) <= ByteLength(s)
    decreases |s| - n
  {
    if n < |s| {
      ByteLengthPrefix(s, n + 1);
      assert s[..n + 1][..n] == s[..n];
    } else {
      assert s[..n] == s;
    }
  }

  /** Each code point stands, big-endian and cut to two bytes, at twice its byte offset; the rest of its room is zero. */
  lemma {:induction false} PasswordBufferAt(s: seq<Rune>, n: nat, k: nat)
    requires n < |s| && 2 * ByteLength(s[..n]) <= k < 2 * ByteLength(s[..n]) + 2 * Width(s[n])
    ensures k < 2 * ByteLength(s) <= |PasswordBuffer(s)| - 2
    ensures var o := 2 * ByteLength(s[..n]);
      PasswordBuffer(s)[k] == if k == o then s[n] / 256 % 256 else if k == o + 1 then s[n] % 256 else 0
    decreases |s| - n
  {
    var init := s[..|s| - 1];
    if n < |s| - 1 {
      assert init[..n] == s[..n] && init[n] == s[n];
      PasswordBufferAt(init, n, k);
    }
  }

  lemma {:induction false} BmpAppend(s: seq<Rune>, c: Rune, b: seq<byte>)
    requires InBasicPlane(s + [c]) && InBasicPlane(s) && b == BmpString(s)
    ensures c < 0x1_0000 && BmpString(s + [c]) == b[..|b| - 2] + [c / 256, c % 256, 0, 0]
  {
    assert (s + [c])[|s|] == c;
    if s == [] {
      assert s + [c] == [c];
    } else {
      assert (s + [c])[1..] == s[1..] + [c];
      var rest := BmpString(s[1..]);
      BmpAppend(s[1..], c, rest);
      Drop2([s[0] / 256, s[0] % 256], rest, [c / 256, c % 256, 0, 0]);
    }
  }

  lemma Drop2(a: seq<byte>, b: seq<byte>, c: seq<byte>)
    requires |b| >= 2
    ensures a + (b[..|b| - 2] + c) == (a + b)[..|a + b| - 2] + c
  {
  }

  lemma {:induction false} ByteLengthOfAscii(s: seq<Rune>)
    ensures ByteLength(s) >= |s| && (ByteLength(s) == |s| <==> IsAscii(s))
  {
    if s != [] {
      var init := s[..|s| - 1];
      ByteLengthOfAscii(init);
      assert forall i :: 0 <= i < |init| ==> init[i] == s[i];
    }
  }

  lemma {:induction false} AsciiIsBmp(s: seq<Rune>)
    requires IsAscii(s) && InBasicPlane(s)
    ensures PasswordBuffer(s) == BmpString(s)
  {
    if s != [] {
      var init, c := s[..|s| - 1], s[|s| - 1];
      AsciiIsBmp(init);
      BmpOneMore(init, c, BmpString(init), s);
    }
  }

  lemma BmpOneMore(init: seq<Rune>, c: Rune, b: seq<byte>, s: seq<Rune>)
    requires s == init + [c] && c < 0x80 && InBasicPlane(s) && InBasicPlane(init)
    requires PasswordBuffer(init) == b == BmpString(init)
    ensures PasswordBuffer(s) == BmpString(s)
  {
    BmpAppend(init, c, b);
    AppendAscii(init, c, b);
    assert c / 256 == 0 && c % 256 == c;
  }

  /** One ASCII character more puts its two octets before the terminator. */
  lemma AppendAscii(init: seq<Rune>, c: Rune, b: seq<byte>)
    requires c < 0x80 && PasswordBuffer(init) == b
    ensures PasswordBuffer(init + [c]) == b[..|b| - 2] + [0, c, 0, 0]
  {
    var s := init + [c];
    assert s[..|s| - 1] == init && s[|s| - 1] == c;
    assert PasswordBuffer(s) == b[..|b| - 2] + [0, c] + Zeros(2);
    Terminator(b[..|b| - 2], c);
  }

  lemma Terminator(b: seq<byte>, c: byte)
    ensures b + [0, c] + Zeros(2) == b + [0, c, 0, 0]
  {
  }

  /**
   passwordBytes writes at byte offsets, so it produces the BMPString of Appendix
   B.1 of RFC 7292 exactly for ASCII passwords.
   */
  lemma PasswordIsBmpExactlyForAscii(s: seq<Rune>)
    requires InBasicPlane(s)
    ensures PasswordBuffer(s) == BmpString(s) <==> IsAscii(s)
  {
    ByteLengthOfAscii(s);
    if IsAscii(s) {
      AsciiIsBmp(s);
    }
  }

  // ---- object identifiers ------

  /**
   The identifiers as their standards' octets: PKCS #7 data, the bag types,
   localKeyId, pbeWithSHAAnd3-KeyTripleDES-CBC, SHA-1.
  */
  lemma ObjectIdentifierOctets()
    ensures OidOctets(DATA) == [0x2A, 0x86, 0x48, 0x86, 0xF7, 0x0D, 0x01, 0x07, 0x01]
    ensures OidOctets(CERT_BAG) == [0x2A, 0x86, 0x48, 0x86, 0xF7, 0x0D, 0x01, 0x0C, 0x0A, 0x01, 0x03]
    ensures OidOctets(KEY_BAG) == [0x2A, 0x86, 0x48, 0x86, 0xF7, 0x0D, 0x01, 0x0C, 0x0A, 0x01, 0x02]
    ensures OidOctets(X509_CERT) == [0x2A, 0x86, 0x48, 0x86, 0xF7, 0x0D, 0x01, 0x09, 0x16, 0x01]
    ensures OidOctets(LOCAL_KEY_ID) == [0x2A, 0x86, 0x48, 0x86, 0xF7, 0x0D, 0x01, 0x09, 0x15]
    ensures OidOctets(PBE_3DES) == [0x2A, 0x86, 0x48, 0x86, 0xF7, 0x0D, 0x01, 0x0C, 0x01, 0x03]
    ensures OidOctets(SHA1) == [0x2B, 0x0E, 0x03, 0x02, 0x1A]
  {
    hide OidOctets;
    PkcsOctets(DATA, [7, 1]);
    PkcsOctets(CERT_BAG, [12, 10, 1, 3]);
    PkcsOctets(KEY_BAG, [12, 10, 1, 2]);
    PkcsOctets(X509_CERT, [9, 22, 1]);
    PkcsOctets(LOCAL_KEY_ID, [9, 21]);
    PkcsOctets(PBE_3DES, [12, 1, 3]);
    Sha1Octets();
  }

  lemma Sha1Octets()
    ensures OidOctets(SHA1) == [0x2B, 0x0E, 0x03, 0x02, 0x1A]
  {
    SmallOctets([43, 14, 3, 2, 26]);
    assert [40 * 1 + 3] + [14, 3, 2, 26] == [43, 14, 3, 2, 26];
  }

  /** Arcs below 128 take one octet each. */
  lemma {:induction false} SmallOctets(arcs: seq<nat>)
    requires forall i :: 0 <= i < |arcs| ==> arcs[i] < 128
    ensures Base128All(arcs) == arcs
  {
    if arcs != [] {
      SmallOctets(arcs[1..]);
    }
  }

  lemma Base128Cons(n: nat, rest: seq<nat>)
    ensures Base128All([n] + rest) == Base128(n) + Base128All(rest)
  {
    assert ([n] + rest)[1..] == rest;
  }

  lemma LargeArcs()
    ensures Base128(42) == [42] && Base128(840) == [0x86, 0x48] && Base128(113549) == [0x86, 0xF7, 0x0D]
  {
    assert Continued(113549 / 128) == [0x86] + [0xF7];
  }

  /** Identifiers below 1.2.840.113549.1, the arc of PKCS. */
  lemma PkcsOctets(oid: Oid, arcs: seq<nat>)
    requires oid == [1, 2, 840, 113549, 1] + arcs && forall i :: 0 <= i < |arcs| ==> arcs[i] < 128
    ensures OidOctets(oid) == [0x2A, 0x86, 0x48, 0x86, 0xF7, 0x0D, 0x01] + arcs
  {
    hide Base128, Base128All;
    var tail := [1] + arcs;
    SmallOctets(tail);
    LargeArcs();
    Base128Cons(113549, tail);
    Base128Cons(840, [113549] + tail);
    Base128Cons(42, [840] + ([113549] + tail));
    assert [40 * oid[0] + oid[1]] + oid[2..] == [42] + ([840] + ([113549] + tail));
  }

  // ---- the encoder -----------------------------------------------------------------

  function OctetString(data: seq<byte>): Element {
    Element(0x04, data)
  }

  function ObjectId(arcs: Oid): Element {
    Element(0x06, OidOctets(arcs))
  }

  function Integer(n: nat): Element {
    Element(0x02, IntegerOctets(n))
  }

  function Sequence(es: seq<Element>): Element {
    Element(0x30, WriteElements(es))
  }

  function SetOf(e: Element): Element {
    Element(0x31, WriteElements([e]))
  }

  /** explicit0. */
  function Explicit0(e: Element): Element {
    Element(0xA0, WriteElements([e]))
  }

  const NULL := Element(0x05, [])

  /** localKeyIDAttr. */
  function LocalKeyIdAttr(keyId: seq<byte>): Element {
    Sequence([ObjectId(LOCAL_KEY_ID), SetOf(OctetString(keyId))])
  }

  /** A SafeBag with one attribute. */
  function SafeBag(id: Oid, value: Element, keyId: seq<byte>): Element {
    Sequence([ObjectId(id), Explicit0(value), SetOf(LocalKeyIdAttr(keyId))])
  }

  /** marshalCertBag. */
  function CertBag(cert: seq<byte>, keyId: seq<byte>): Element {
    SafeBag(CERT_BAG, Sequence([ObjectId(X509_CERT), Explicit0(OctetString(cert))]), keyId)
  }

  /** The ciphertext marshalKeyBag stores. */
  function EncryptedKey(c: Crypto, pkcs8: seq<byte>, password: seq<byte>, salt: Salt): seq<byte> {
    var key := Derived(c.sha1, 1, password, salt, ITERATIONS, 24);
    var iv := Derived(c.sha1, 2, password, salt, ITERATIONS, 8);
    c.encrypt(key, iv, Padded(pkcs8, 8))
  }

  /** marshalKeyBag. */
  function KeyBag(ciphertext: seq<byte>, salt: Salt, keyId: seq<byte>): Element {
    var params := Sequence([OctetString(salt), Integer(ITERATIONS)]);
    var algorithm := Sequence([ObjectId(PBE_3DES), params]);
    SafeBag(KEY_BAG, Sequence([algorithm, OctetString(ciphertext)]), keyId)
  }

  /** makeDataCI. */
  function DataContentInfo(data: seq<byte>): Element {
    Sequence([ObjectId(DATA), Explicit0(OctetString(data))])
  }

  /** wrapInSequence, as bytes. */
  function SafeContents(bag: Element): seq<byte> {
    WriteElements([Sequence([bag])])
  }

  /** The DER of the AuthenticatedSafe, which is also the MAC input. */
  function AuthenticatedSafe(certBag: Element, keyBag: Element): seq<byte> {
    WriteElements([Sequence([DataContentInfo(SafeContents(certBag)), DataContentInfo(SafeContents(keyBag))])])
  }

  /** computeMAC. */
  function MacData(c: Crypto, data: seq<byte>, password: seq<byte>, salt: Salt): Element {
    var key := Derived(c.sha1, 3, password, salt, ITERATIONS, 20);
    var digestInfo := Sequence([Sequence([ObjectId(SHA1), NULL]), OctetString(c.hmac(key, data))]);
    Sequence([digestInfo, OctetString(salt), Integer(ITERATIONS)])
  }

  datatype EncodeError = KeyBagError | MacError

  /** The two encoded halves of the bundle, before the outer wrapping. */
  function Bags(c: Crypto, pkcs8: seq<byte>, cert: seq<byte>, password: seq<byte>, salt: Salt): seq<byte> {
    var keyId := c.sha1(cert);
    AuthenticatedSafe(CertBag(cert, keyId), KeyBag(EncryptedKey(c, pkcs8, password, salt), salt, keyId))
  }

  /** The pfx value: version 3, the AuthenticatedSafe in an OCTET STRING, the MAC over it. */
  function Outer(c: Crypto, authSafe: seq<byte>, password: seq<byte>, salt: Salt): seq<byte> {
    WriteElements([Sequence([Integer(3), DataContentInfo(authSafe), MacData(c, authSafe, password, salt)])])
  }

  /**
   Encode. pkcs8 is the marshalled private key, keySalt and macSalt the random
   bytes; None stands for an error from the call that produces them.
   */
  function Encode(c: Crypto, pkcs8: Option<seq<byte>>, cert: seq<byte>, password: seq<Rune>,
                  keySalt: Option<Salt>, macSalt: Option<Salt>): Result<seq<byte>, EncodeError>
  {
    var pw := PasswordBuffer(password);
    if pkcs8.None? || keySalt.None? then Err(KeyBagError)
    else if macSalt.None? then Err(MacError)
    else
      var authSafe := Bags(c, pkcs8.value, cert, pw, keySalt.value);
      Ok(Outer(c, authSafe, pw, macSalt.value))
  }

  // ---- the reader, section 4 of RFC 7292 ------------------------------------------------

  datatype Bag =
    | Certificate(cert: seq<byte>, keyId: seq<byte>)
    | ShroudedKey(salt: seq<byte>, iterations: nat, ciphertext: seq<byte>, keyId: seq<byte>)

  datatype Mac = Mac(digest: seq<byte>, salt: seq<byte>, iterations: nat)

  datatype Pfx = Pfx(authSafe: seq<byte>, bags: seq<Bag>, mac: Mac)

  /** The fields of a constructed element with the given tag. */
  function Fields(e: Element, tag: byte, n: nat): (r: Option<seq<Element>>)
    ensures r.Some? ==> |r.value| == n
  {
    var _ :- Need(e.tag == tag);
    var es :- ReadElements(e.content);
    var _ :- Need(|es| == n);
    Some(es)
  }

  /** The single element all of s consists of. */
  function ReadOne(s: seq<byte>): Option<Element> {
    var es :- ReadElements(s);
    var _ :- Need(|es| == 1);
    Some(es[0])
  }

  function ReadOctets(e: Element): Option<seq<byte>> {
    if e.tag == 0x04 then Some(e.content) else None
  }

  function ReadObjectId(e: Element): Option<Oid> {
    if e.tag == 0x06 then ReadOid(e.content) else None
  }

  function ReadNat(e: Element): Option<nat> {
    if e.tag == 0x02 then ReadInteger(e.content) else None
  }

  /** ContentInfo of type data: the contents of its OCTET STRING. */
  function ReadDataContentInfo(e: Element): Option<seq<byte>> {
    var fields :- Fields(e, 0x30, 2);
    var id :- ReadObjectId(fields[0]);
    var _ :- Need(id == DATA);
    var inner :- Fields(fields[1], 0xA0, 1);
    ReadOctets(inner[0])
  }

  /** The value of the localKeyId attribute. */
  function ReadLocalKeyId(attributes: Element): Option<seq<byte>> {
    var attrs :- Fields(attributes, 0x31, 1);
    var fields :- Fields(attrs[0], 0x30, 2);
    var id :- ReadObjectId(fields[0]);
    var _ :- Need(id == LOCAL_KEY_ID);
    var values :- Fields(fields[1], 0x31, 1);
    ReadOctets(values[0])
  }

  function ReadCert(value: Element): Option<seq<byte>> {
    var fields :- Fields(value, 0x30, 2);
    var id :- ReadObjectId(fields[0]);
    var _ :- Need(id == X509_CERT);
    var inner :- Fields(fields[1], 0xA0, 1);
    ReadOctets(inner[0])
  }

  function ReadShroudedKey(value: Element, keyId: seq<byte>): Option<Bag> {
    var fields :- Fields(value, 0x30, 2);
    var algorithm :- Fields(fields[0], 0x30, 2);
    var id :- ReadObjectId(algorithm[0]);
    var _ :- Need(id == PBE_3DES);
    var params :- Fields(algorithm[1], 0x30, 2);
    var salt :- ReadOctets(params[0]);
    var iterations :- ReadNat(params[1]);
    var ciphertext :- ReadOctets(fields[1]);
    Some(ShroudedKey(salt, iterations, ciphertext, keyId))
  }

  function ReadBag(e: Element): Option<Bag> {
    var fields :- Fields(e, 0x30, 3);
    var id :- ReadObjectId(fields[0]);
    var value :- Fields(fields[1], 0xA0, 1);
    var keyId :- ReadLocalKeyId(fields[2]);
    if id == CERT_BAG then
      var cert :- ReadCert(value[0]);
      Some(Certificate(cert, keyId))
    else if id == KEY_BAG then ReadShroudedKey(value[0], keyId)
    else None
  }

  function ReadBags(es: seq<Element>): Option<seq<Bag>> {
    if es == [] then Some([])
    else
      var bag :- ReadBag(es[0]);
      var bags :- ReadBags(es[1..]);
      Some([bag] + bags)
  }

  /** SafeContents: a SEQUENCE OF SafeBag. */
  function ReadSafeContents(s: seq<byte>): Option<seq<Bag>> {
    var e :- ReadOne(s);
    var _ :- Need(e.tag == 0x30);
    var es :- ReadElements(e.content);
    ReadBags(es)
  }

  function ReadContentInfos(es: seq<Element>): Option<seq<Bag>> {
    if es == [] then Some([])
    else
      var data :- ReadDataContentInfo(es[0]);
      var bags :- ReadSafeContents(data);
      var more :- ReadContentInfos(es[1..]);
      Some(bags + more)
  }

  /** AuthenticatedSafe: a SEQUENCE OF ContentInfo. */
  function ReadAuthenticatedSafe(s: seq<byte>): Option<seq<Bag>> {
    var e :- ReadOne(s);
    var _ :- Need(e.tag == 0x30);
    var es :- ReadElements(e.content);
    ReadContentInfos(es)
  }

  function ReadMac(e: Element): Option<Mac> {
    var fields :- Fields(e, 0x30, 3);
    var info :- Fields(fields[0], 0x30, 2);
    var algorithm :- Fields(info[0], 0x30, 2);
    var id :- ReadObjectId(algorithm[0]);
    var _ :- Need(id == SHA1 && algorithm[1] == NULL);
    var digest :- ReadOctets(info[1]);
    var salt :- ReadOctets(fields[1]);
    var iterations :- ReadNat(fields[2]);
    Some(Mac(digest, salt, iterations))
  }

  /** PFX: version 3, the outer ContentInfo, the MAC. */
  function ReadPfx(s: seq<byte>): Option<Pfx> {
    var e :- ReadOne(s);
    var fields :- Fields(e, 0x30, 3);
    var version :- ReadNat(fields[0]);
    var _ :- Need(version == 3);
    var authSafe :- ReadDataContentInfo(fields[1]);
    var bags :- ReadAuthenticatedSafe(authSafe);
    var mac :- ReadMac(fields[2]);
    Some(Pfx(authSafe, bags, mac))
  }

  /** Section 5.1 of RFC 7292: the MAC is right for this password. */
  predicate MacVerifies(c: Crypto, pfx: Pfx, password: seq<byte>) {
    pfx.mac.iterations > 0 &&
    pfx.mac.digest == c.hmac(Derived(c.sha1, 3, password, pfx.mac.salt, pfx.mac.iterations, 20), pfx.authSafe)
  }

  /** The private key of a shrouded key bag. */
  function OpenKey(c: Crypto, bag: Bag, password: seq<byte>): Option<seq<byte>> {
    var _ :- Need(bag.ShroudedKey? && bag.iterations > 0);
    var key := Derived(c.sha1, 1, password, bag.salt, bag.iterations, 24);
    var iv := Derived(c.sha1, 2, password, bag.salt, bag.iterations, 8);
    Unpadded(c.decrypt(key, iv, bag.ciphertext))
  }
}

/** What Encode writes can be read back: the certificate, the private key, and a MAC that verifies. */
module Pkcs12RoundTrip {
  import opened Prelude
  import opened Bytes
  import opened Der
  import opened Pkcs12Kdf
  import opened Pkcs12

  // ---- sizes, to know that every length fits a Go int ---------------------------------

  /** The content is at most n bytes, and n is far from the largest int. */
  predicate Small(e: Element, n: nat) {
    |e.content| <= n <= 0x4000_0000_0000_0000
  }

  lemma Write1(a: Element, n: nat)
    requires Small(a, n)
    ensures |WriteElements([a])| <= n + 10
    ensures ReadElements(WriteElements([a])) == Some([a])
  {
    TlvSize(a.tag, a.content);
    ElementsRoundTrip([a]);
  }

  lemma Write2(a: Element, b: Element, m: nat, n: nat)
    requires Small(a, m) && Small(b, n)
    ensures |WriteElements([a, b])| <= m + n + 20
    ensures ReadElements(WriteElements([a, b])) == Some([a, b])
  {
    TlvSize(a.tag, a.content);
    Write1(b, n);
    assert [a, b][1..] == [b];
    ElementsRoundTrip([a, b]);
  }

  lemma Write3(a: Element, b: Element, c: Element, l: nat, m: nat, n: nat)
    requires Small(a, l) && Small(b, m) && Small(c, n)
    ensures |WriteElements([a, b, c])| <= l + m + n + 30
    ensures ReadElements(WriteElements([a, b, c])) == Some([a, b, c])
  {
    TlvSize(a.tag, a.content);
    Write2(b, c, m, n);
    assert [a, b, c][1..] == [b, c];
    ElementsRoundTrip([a, b, c]);
  }

  lemma Base128Size(n: nat)
    requires n < 0x20_0000
    ensures |Base128(n)| <= 3
  {
    if n >= 128 {
      var m := n / 128;
      assert |Continued(m)| == if m < 128 then 1 else |Continued(m / 128)| + 1;
    }
  }

  lemma {:induction false} Base128AllSize(ns: seq<nat>)
    requires forall i :: 0 <= i < |ns| ==> ns[i] < 0x20_0000
    ensures |Base128All(ns)| <= 3 * |ns|
  {
    if ns != [] {
      Base128Size(ns[0]);
      Base128AllSize(ns[1..]);
    }
  }

  lemma OidReads(arcs: Oid)
    requires |arcs| <= 10 && forall i :: 0 <= i < |arcs| ==> arcs[i] < 0x20_0000
    ensures Small(ObjectId(arcs), 30) && ReadObjectId(ObjectId(arcs)) == Some(arcs)
  {
    Base128AllSize([40 * arcs[0] + arcs[1]] + arcs[2..]);
    OidRoundTrip(arcs);
  }

  lemma IntegerReads(n: nat)
    requires Fits(n)
    ensures Small(Integer(n), 9) && ReadNat(Integer(n)) == Some(n)
  {
    assert Shift(1, 8) == 0x1_0000_0000_0000_0000;
    DigitCountBound(n, 8);
    IntegerRoundTrip(n);
  }

  // ---- each part reads back -------------------------------------------------------------

  lemma DataContentInfoReads(data: seq<byte>, n: nat)
    requires |data| <= n <= 0x2000_0000_0000_0000
    ensures Small(DataContentInfo(data), n + 70)
    ensures ReadDataContentInfo(DataContentInfo(data)) == Some(data)
  {
    OidReads(DATA);
    Write1(OctetString(data), n);
    Write2(ObjectId(DATA), Explicit0(OctetString(data)), 30, n + 10);
  }

  lemma LocalKeyIdReads(keyId: seq<byte>)
    requires |keyId| == 20
    ensures Small(SetOf(LocalKeyIdAttr(keyId)), 100)
    ensures ReadLocalKeyId(SetOf(LocalKeyIdAttr(keyId))) == Some(keyId)
  {
    OidReads(LOCAL_KEY_ID);
    Write1(OctetString(keyId), 20);
    Write2(ObjectId(LOCAL_KEY_ID), SetOf(OctetString(keyId)), 30, 30);
    Write1(LocalKeyIdAttr(keyId), 80);
  }

  lemma SafeBagReads(id: Oid, value: Element, keyId: seq<byte>, n: nat)
    requires |id| <= 10 && (forall i :: 0 <= i < |id| ==> id[i] < 0x20_0000)
    requires Small(value, n) && n <= 0x2000_0000_0000_0000 && |keyId| == 20
    ensures Small(SafeBag(id, value, keyId), n + 170)
    ensures Fields(SafeBag(id, value, keyId), 0x30, 3) ==
      Some([ObjectId(id), Explicit0(value), SetOf(LocalKeyIdAttr(keyId))])
    ensures ReadObjectId(ObjectId(id)) == Some(id)
    ensures Fields(Explicit0(value), 0xA0, 1) == Some([value])
    ensures ReadLocalKeyId(SetOf(LocalKeyIdAttr(keyId))) == Some(keyId)
  {
    OidReads(id);
    Write1(value, n);
    LocalKeyIdReads(keyId);
    Write3(ObjectId(id), Explicit0(value), SetOf(LocalKeyIdAttr(keyId)), 30, n + 10, 100);
  }

  lemma CertBagReads(cert: seq<byte>, keyId: seq<byte>, n: nat)
    requires |cert| <= n <= 0x1000_0000_0000_0000 && |keyId| == 20
    ensures Small(CertBag(cert, keyId), n + 300)
    ensures ReadBag(CertBag(cert, keyId)) == Some(Certificate(cert, keyId))
  {
    hide ReadElements, WriteElements, ReadOid, ReadInteger;
    var value := Sequence([ObjectId(X509_CERT), Explicit0(OctetString(cert))]);
    OidReads(X509_CERT);
    Write1(OctetString(cert), n);
    Write2(ObjectId(X509_CERT), Explicit0(OctetString(cert)), 30, n + 10);
    assert ReadCert(value) == Some(cert);
    SafeBagReads(CERT_BAG, value, keyId, n + 60);
  }

  lemma ShroudedKeyReads(ciphertext: seq<byte>, salt: Salt, keyId: seq<byte>, n: nat)
    requires |ciphertext| <= n <= 0x1000_0000_0000_0000
    ensures var params := Sequence([OctetString(salt), Integer(ITERATIONS)]);
      var value := Sequence([Sequence([ObjectId(PBE_3DES), params]), OctetString(ciphertext)]);
      Small(value, n + 107) && ReadShroudedKey(value, keyId) == Some(ShroudedKey(salt, ITERATIONS, ciphertext, keyId))
  {
    hide ReadElements, WriteElements, ReadOid, ReadInteger;
    var params := Sequence([OctetString(salt), Integer(ITERATIONS)]);
    var algorithm := Sequence([ObjectId(PBE_3DES), params]);
    IntegerReads(ITERATIONS);
    OidReads(PBE_3DES);
    Write2(OctetString(salt), Integer(ITERATIONS), 8, 9);
    Write2(ObjectId(PBE_3DES), params, 30, 37);
    Write2(algorithm, OctetString(ciphertext), 87, n);
  }

  lemma OtherBag()
    ensures KEY_BAG != CERT_BAG
  {
    assert KEY_BAG[8] != CERT_BAG[8];
  }

  lemma KeyBagReads(ciphertext: seq<byte>, salt: Salt, keyId: seq<byte>, n: nat)
    requires |ciphertext| <= n <= 0x1000_0000_0000_0000 && |keyId| == 20
    ensures Small(KeyBag(ciphertext, salt, keyId), n + 400)
    ensures ReadBag(KeyBag(ciphertext, salt, keyId)) == Some(ShroudedKey(salt, ITERATIONS, ciphertext, keyId))
  {
    hide ReadElements, WriteElements, ReadOid, ReadInteger;
    var params := Sequence([OctetString(salt), Integer(ITERATIONS)]);
    var value := Sequence([Sequence([ObjectId(PBE_3DES), params]), OctetString(ciphertext)]);
    ShroudedKeyReads(ciphertext, salt, keyId, n);
    SafeBagReads(KEY_BAG, value, keyId, n + 107);
    OtherBag();
  }

  lemma SafeContentsReads(e: Element, bag: Bag, n: nat)
    requires Small(e, n) && n <= 0x1000_0000_0000_1000 && ReadBag(e) == Some(bag)
    ensures |SafeContents(e)| <= n + 20
    ensures ReadSafeContents(SafeContents(e)) == Some([bag])
  {
    Write1(e, n);
    Write1(Sequence([e]), n + 10);
    assert ReadBags([e]) == Some([bag] + []);
    assert [bag] + [] == [bag];
  }

  lemma AuthenticatedSafeReads(a: Element, b: Element, bagA: Bag, bagB: Bag, n: nat)
    requires Small(a, n) && Small(b, n) && n <= 0x1000_0000_0000_1000
    requires ReadBag(a) == Some(bagA) && ReadBag(b) == Some(bagB)
    ensures |AuthenticatedSafe(a, b)| <= 2 * n + 300
    ensures ReadAuthenticatedSafe(AuthenticatedSafe(a, b)) == Some([bagA, bagB])
  {
    var infoA, infoB := DataContentInfo(SafeContents(a)), DataContentInfo(SafeContents(b));
    SafeContentsReads(a, bagA, n);
    SafeContentsReads(b, bagB, n);
    DataContentInfoReads(SafeContents(a), n + 20);
    DataContentInfoReads(SafeContents(b), n + 20);
    Write2(infoA, infoB, n + 90, n + 90);
    Write1(Sequence([infoA, infoB]), 2 * n + 200);
    assert ReadContentInfos([infoB]) == Some([bagB] + []);
    assert [infoA, infoB][1..] == [infoB];
    assert [bagA] + ([bagB] + []) == [bagA, bagB];
  }

  lemma MacReads(digest: Digest, salt: Salt)
    ensures var info := Sequence([Sequence([ObjectId(SHA1), NULL]), OctetString(digest)]);
      var e := Sequence([info, OctetString(salt), Integer(ITERATIONS)]);
      Small(e, 200) && ReadMac(e) == Some(Mac(digest, salt, ITERATIONS))
  {
    hide ReadElements, WriteElements, ReadOid, ReadInteger;
    var algorithm := Sequence([ObjectId(SHA1), NULL]);
    var info := Sequence([algorithm, OctetString(digest)]);
    OidReads(SHA1);
    IntegerReads(ITERATIONS);
    Write2(ObjectId(SHA1), NULL, 30, 0);
    Write2(algorithm, OctetString(digest), 50, 20);
    Write3(info, OctetString(salt), Integer(ITERATIONS), 90, 8, 9);
  }

  lemma PfxReads(authSafe: seq<byte>, mac: Element, bags: seq<Bag>, m: Mac)
    requires |authSafe| <= 0x2000_0000_0000_0000 && ReadAuthenticatedSafe(authSafe) == Some(bags)
    requires Small(mac, 200) && ReadMac(mac) == Some(m)
    ensures ReadPfx(WriteElements([Sequence([Integer(3), DataContentInfo(authSafe), mac])])) == Some(Pfx(authSafe, bags, m))
  {
    hide ReadElements, WriteElements, ReadOid, ReadInteger, ReadMac, ReadAuthenticatedSafe, ReadDataContentInfo,
      DataContentInfo;
    var n := |authSafe|;
    IntegerReads(3);
    DataContentInfoReads(authSafe, n);
    Write3(Integer(3), DataContentInfo(authSafe), mac, 9, n + 70, 200);
    Write1(Sequence([Integer(3), DataContentInfo(authSafe), mac]), n + 309);
  }

  // ---- the main results --------------------------------------------------------------------

  /** What the bundle of a given key and certificate must read back as. */
  ghost function Expected(c: Crypto, pkcs8: seq<byte>, cert: seq<byte>, pw: seq<byte>, keySalt: Salt, macSalt: Salt): Pfx {
    var authSafe := Bags(c, pkcs8, cert, pw, keySalt);
    var keyId := c.sha1(cert);
    var macKey := Derived(c.sha1, 3, pw, macSalt, ITERATIONS, 20);
    Pfx(
      authSafe,
      [Certificate(cert, keyId), ShroudedKey(keySalt, ITERATIONS, EncryptedKey(c, pkcs8, pw, keySalt), keyId)],
      Mac(c.hmac(macKey, authSafe), macSalt, ITERATIONS))
  }

  lemma BagsRead(c: Crypto, pkcs8: seq<byte>, cert: seq<byte>, pw: seq<byte>, salt: Salt)
    requires IsCipher(c) && |cert| <= 0x0800_0000_0000_0000 && |pkcs8| <= 0x0800_0000_0000_0000
    ensures var authSafe, keyId := Bags(c, pkcs8, cert, pw, salt), c.sha1(cert);
      && |authSafe| <= 0x2000_0000_0000_0000
      && ReadAuthenticatedSafe(authSafe) ==
           Some([Certificate(cert, keyId), ShroudedKey(salt, ITERATIONS, EncryptedKey(c, pkcs8, pw, salt), keyId)])
  {
    var keyId, n := c.sha1(cert), 0x0800_0000_0000_0100;
    var ciphertext := EncryptedKey(c, pkcs8, pw, salt);
    PaddingRoundTrip(pkcs8, 8);
    assert |ciphertext| <= n;
    CertBagReads(cert, keyId, n);
    KeyBagReads(ciphertext, salt, keyId, n);
    AuthenticatedSafeReads(CertBag(cert, keyId), KeyBag(ciphertext, salt, keyId),
                           Certificate(cert, keyId), ShroudedKey(salt, ITERATIONS, ciphertext, keyId), n + 400);
  }

  lemma OuterReads(c: Crypto, pkcs8: seq<byte>, cert: seq<byte>, pw: seq<byte>, keySalt: Salt, macSalt: Salt)
    requires IsCipher(c) && |cert| <= 0x0800_0000_0000_0000 && |pkcs8| <= 0x0800_0000_0000_0000
    ensures ReadPfx(Outer(c, Bags(c, pkcs8, cert, pw, keySalt), pw, macSalt)) ==
      Some(Expected(c, pkcs8, cert, pw, keySalt, macSalt))
  {
    var pfx := Expected(c, pkcs8, cert, pw, keySalt, macSalt);
    BagsRead(c, pkcs8, cert, pw, keySalt);
    MacReads(pfx.mac.digest, macSalt);
    PfxReads(pfx.authSafe, MacData(c, pfx.authSafe, pw, macSalt), pfx.bags, pfx.mac);
  }

  /**
   Encode fails exactly when one of its sources does, and otherwise its output
   reads back as exactly the certificate bag and the shrouded key bag, linked by
   the SHA-1 of the certificate, with the MAC input being the contents of the
   outer OCTET STRING.
   */
  lemma EncodeReadsBack(c: Crypto, pkcs8: Option<seq<byte>>, cert: seq<byte>, password: seq<Rune>,
                        keySalt: Option<Salt>, macSalt: Option<Salt>)
    requires IsCipher(c)
    requires |cert| <= 0x0800_0000_0000_0000
    requires pkcs8.Some? ==> |pkcs8.value| <= 0x0800_0000_0000_0000
    ensures var r := Encode(c, pkcs8, cert, password, keySalt, macSalt);
      && (r.Ok? <==> pkcs8.Some? && keySalt.Some? && macSalt.Some?)
      && (r.Ok? ==>
            ReadPfx(r.value) == Some(Expected(c, pkcs8.value, cert, PasswordBuffer(password), keySalt.value, macSalt.value)))
  {
    hide Outer, Bags, Expected, ReadPfx, PasswordBuffer;
    if pkcs8.Some? && keySalt.Some? && macSalt.Some? {
      OuterReads(c, pkcs8.value, cert, PasswordBuffer(password), keySalt.value, macSalt.value);
    }
  }

  /** With the password, the bundle yields the certificate and the private key, and its MAC verifies. */
  lemma BundleOpens(c: Crypto, pkcs8: seq<byte>, cert: seq<byte>, password: seq<Rune>, keySalt: Salt, macSalt: Salt)
    requires IsCipher(c)
    requires |cert| <= 0x0800_0000_0000_0000 && |pkcs8| <= 0x0800_0000_0000_0000
    ensures var r := Encode(c, Some(pkcs8), cert, password, Some(keySalt), Some(macSalt));
      && r.Ok? && ReadPfx(r.value).Some?
      && var pfx, pw := ReadPfx(r.value).value, PasswordBuffer(password);
         && |pfx.bags| == 2
         && pfx.bags[0] == Certificate(cert, c.sha1(cert))
         && pfx.bags[1].keyId == pfx.bags[0].keyId
         && OpenKey(c, pfx.bags[1], pw) == Some(pkcs8)
         && MacVerifies(c, pfx, pw)
         && |pfx.bags[1].ciphertext| == |pkcs8| + 8 - |pkcs8| % 8
         && pfx.bags[1].iterations == pfx.mac.iterations == 2048
         && pfx.bags[1].salt == keySalt && pfx.mac.salt == macSalt
  {
    EncodeReadsBack(c, Some(pkcs8), cert, password, Some(keySalt), Some(macSalt));
    PaddingRoundTrip(pkcs8, 8);
  }
}

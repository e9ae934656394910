/**
 Appendix B.2 of RFC 7292 byte by byte. A run of the derivation is written down
 round by round, each condition in terms of single bytes and of big-endian
 values; there is always such a run, and its digests are the key.
*/
module Pkcs12KdfBytes {
  import opened Bytes
  import opened Pkcs12Kdf

  /** One round: I, the message D || I, the digests of its iterations, and the block B. */
  datatype Round = Round(input: seq<byte>, message: seq<byte>, digests: seq<Digest>, fill: seq<byte>)

  /** Steps 2 and 3: data repeated to whole blocks of 64 bytes; no data gives no bytes. */
  ghost predicate Repeats(s: seq<byte>, data: seq<byte>) {
    && |s| == 64 * ((|data| + 63) / 64)
    && (forall k :: 0 <= k < |s| ==> |data| > 0 && s[k] == data[k % |data|])
  }

  /** Step 4: the salt first, then the password. */
  ghost predicate StartsAs(i: seq<byte>, salt: seq<byte>, password: seq<byte>) {
    var n := 64 * ((|salt| + 63) / 64);
    n <= |i| && Repeats(i[..n], salt) && Repeats(i[n..], password)
  }

  /** Steps 1 and 6A: the message is 64 bytes of id and then I; its hash is hashed again iterations - 1 times. */
  ghost predicate IsHashed(h: Hash, id: byte, iterations: nat, r: Round) {
    && |r.message| == 64 + |r.input|
    && (forall k :: 0 <= k < 64 ==> r.message[k] == id)
    && (forall k :: 0 <= k < |r.input| ==> r.message[64 + k] == r.input[k])
    && |r.digests| == iterations > 0
    && r.digests[0] == h(r.message)
    && (forall n :: 0 < n < iterations ==> r.digests[n] == h(r.digests[n - 1]))
  }

  /** Step 6B: the last digest, repeated to 64 bytes. */
  ghost predicate IsFilled(r: Round) {
    r.digests != [] && |r.fill| == 64 && forall k :: 0 <= k < 64 ==> r.fill[k] == r.digests[|r.digests| - 1][k % 20]
  }

  function BlockOf(i: seq<byte>, j: nat): (block: seq<byte>)
    requires 64 * j + 64 <= |i|
    ensures |block| == 64
  {
    i[64 * j..64 * j + 64]
  }

  /** Step 6C: every 64-byte block of I grows by B + 1 modulo 2^512. */
  ghost predicate Grows(i: seq<byte>, b: seq<byte>, next: seq<byte>) {
    && |next| == |i| && Shift(1, 64) > 0
    && (forall j :: 0 <= j && 64 * j + 64 <= |i| ==>
          BigEndian(BlockOf(next, j)) == (BigEndian(BlockOf(i, j)) + BigEndian(b) + 1) % Shift(1, 64))
  }

  /** A run of as many rounds as are written down. */
  ghost predicate IsRun(h: Hash, id: byte, password: seq<byte>, salt: seq<byte>, iterations: nat, rounds: seq<Round>) {
    && (rounds != [] ==> StartsAs(rounds[0].input, salt, password))
    && (forall r :: 0 <= r < |rounds| ==> IsHashed(h, id, iterations, rounds[r]) && IsFilled(rounds[r]))
    && (forall r :: 0 < r < |rounds| ==> Grows(rounds[r - 1].input, rounds[r - 1].fill, rounds[r].input))
  }

  // ---- each condition determines what the specification computes -----------------------------

  lemma RepeatsIsExpanded(s: seq<byte>, data: seq<byte>)
    ensures Repeats(s, data) <==> s == Expanded(data, 64)
  {
    var e := Expanded(data, 64);
    assert |e| == 64 * ((|data| + 63) / 64);
    forall k | 0 <= k < |e| ensures data != [] && e[k] == data[k % |data|] {
      if data != [] {
        CopiesAt(data, |e|, k);
      }
    }
    hide Expanded;
    if Repeats(s, data) {
      assert forall k | 0 <= k < |s| :: s[k] == e[k];
    }
  }

  lemma StartIsExpanded(i: seq<byte>, salt: seq<byte>, password: seq<byte>)
    ensures StartsAs(i, salt, password) <==> i == Expanded(salt, 64) + Expanded(password, 64)
  {
    var s, p := Expanded(salt, 64), Expanded(password, 64);
    var n := 64 * ((|salt| + 63) / 64);
    RepeatsIsExpanded(s, salt);
    assert |s| == n;
    hide Expanded, Repeats;
    if n <= |i| {
      RepeatsIsExpanded(i[..n], salt);
      RepeatsIsExpanded(i[n..], password);
      assert i == i[..n] + i[n..];
      assert (s + p)[..n] == s && (s + p)[n..] == p;
    }
  }

  lemma {:induction false} DigestsAreIterated(h: Hash, digests: seq<Digest>, message: seq<byte>, n: nat)
    requires n < |digests| && digests[0] == h(message)
    requires forall k :: 0 < k < |digests| ==> digests[k] == h(digests[k - 1])
    ensures digests[n] == Iterated(h, n + 1, message)
  {
    if n > 0 {
      DigestsAreIterated(h, digests, message, n - 1);
    } else {
      assert Iterated(h, 0, message) == message;
    }
  }

  lemma FillIsCopies(r: Round)
    requires IsFilled(r)
    ensures r.fill == Copies(r.digests[|r.digests| - 1], 64)
  {
    var a := r.digests[|r.digests| - 1];
    forall k | 0 <= k < 64 ensures r.fill[k] == Copies(a, 64)[k] {
      CopiesAt(a, 64, k);
    }
  }

  /** Bytes of one length with one value are the same bytes. */
  lemma SameValue(a: seq<byte>, b: seq<byte>)
    requires |a| == |b| && BigEndian(a) == BigEndian(b)
    ensures a == b
  {
    ShiftZero(|a|);
    LowOrder(BigEndian(a), a, 0);
    LowOrder(BigEndian(b), b, 0);
  }

  lemma {:induction false} SameBlocks(a: seq<byte>, b: seq<byte>, n: nat)
    requires |a| == |b| == 64 * n && forall j :: 0 <= j < n ==> BlockOf(a, j) == BlockOf(b, j)
    ensures a == b
  {
    forall k | 0 <= k < |a| ensures a[k] == b[k] {
      var j := k / 64;
      assert BlockOf(a, j)[k - 64 * j] == a[k] && BlockOf(b, j)[k - 64 * j] == b[k];
    }
  }

  /** Growing is exactly what the specification's step 6C does. */
  lemma GrowsIsBumped(i: seq<byte>, b: seq<byte>, next: seq<byte>)
    requires |i| % 64 == 0 && |b| == 64
    ensures Grows(i, b, next) <==> next == Bumped(i, b)
  {
    hide BigEndian, Shift, Bumped;
    assert Shift(1, 64) > 0 by { ValueMod(0, 64); }
    forall j | 0 <= j && 64 * j + 64 <= |i|
      ensures BigEndian(BlockOf(Bumped(i, b), j)) == (BigEndian(BlockOf(i, j)) + BigEndian(b) + 1) % Shift(1, 64)
    {
      BumpedBlock(i, b, j);
    }
    if Grows(i, b, next) {
      forall j | 0 <= j < |i| / 64 ensures BlockOf(next, j) == BlockOf(Bumped(i, b), j) {
        SameValue(BlockOf(next, j), BlockOf(Bumped(i, b), j));
      }
      SameBlocks(next, Bumped(i, b), |i| / 64);
    }
  }

  // ---- a run computes the key ---------------------------------------------------------------

  lemma RoundIsSpecified(h: Hash, id: byte, iterations: nat, r: Round, d: seq<byte>)
    requires IsHashed(h, id, iterations, r) && IsFilled(r) && |d| == 64 && (forall k :: 0 <= k < 64 ==> d[k] == id)
    requires |r.input| % 64 == 0
    ensures r.digests[|r.digests| - 1] == Iterated(h, iterations, d + r.input)
    ensures forall next :: Grows(r.input, r.fill, next) ==> next == NextInput(h, d, r.input, iterations)
  {
    assert r.message == d + r.input;
    DigestsAreIterated(h, r.digests, r.message, iterations - 1);
    FillIsCopies(r);
    hide Bumped, Copies, Grows, Iterated;
    forall next | Grows(r.input, r.fill, next) ensures next == NextInput(h, d, r.input, iterations) {
      GrowsIsBumped(r.input, r.fill, next);
    }
  }

  ghost predicate FollowOn(h: Hash, id: byte, iterations: nat, rounds: seq<Round>) {
    && (forall r :: 0 <= r < |rounds| ==> IsHashed(h, id, iterations, rounds[r]) && IsFilled(rounds[r]))
    && (forall r :: 0 < r < |rounds| ==> Grows(rounds[r - 1].input, rounds[r - 1].fill, rounds[r].input))
  }

  /** Byte k of the blocks is byte k mod 20 of the last digest of round k / 20. */
  lemma {:induction false} BlocksAreDigests(h: Hash, id: byte, d: seq<byte>, i: seq<byte>, iterations: nat,
                                            rounds: seq<Round>, k: nat)
    requires iterations > 0 && |d| == 64 && (forall n :: 0 <= n < 64 ==> d[n] == id) && |i| % 64 == 0
    requires FollowOn(h, id, iterations, rounds) && (rounds != [] ==> rounds[0].input == i) && k < 20 * |rounds|
    ensures |Blocks(h, d, i, iterations, |rounds|)| == 20 * |rounds|
    ensures Blocks(h, d, i, iterations, |rounds|)[k] == rounds[k / 20].digests[iterations - 1][k % 20]
    decreases |rounds|
  {
    hide Iterated, NextInput, Grows, IsFilled;
    BlocksLength(h, d, i, iterations, |rounds|);
    RoundIsSpecified(h, id, iterations, rounds[0], d);
    BlocksStep(h, d, i, iterations, |rounds|);
    if k >= 20 {
      var next := NextInput(h, d, i, iterations);
      var rest := rounds[1..];
      assert forall r | 0 <= r < |rest| :: rest[r] == rounds[r + 1];
      assert FollowOn(h, id, iterations, rest);
      BlocksLength(h, d, next, iterations, |rest|);
      BlocksAreDigests(h, id, d, next, iterations, rest, k - 20);
    }
  }

  /**
   Appendix B.2 of RFC 7292, byte by byte: byte k of the key is byte k mod 20
   of the digest that round k / 20 of any such run ends with.
  */
  lemma KeyIsTheRun(h: Hash, id: byte, password: seq<byte>, salt: seq<byte>, iterations: nat, keyLen: nat,
                    rounds: seq<Round>, k: nat)
    requires iterations > 0 && IsRun(h, id, password, salt, iterations, rounds)
    requires k < keyLen <= 20 * |rounds|
    ensures Derived(h, id, password, salt, iterations, keyLen)[k] == rounds[k / 20].digests[iterations - 1][k % 20]
  {
    hide Expanded, StartsAs, Blocks;
    var d: seq<byte> := seq(64, _ => id);
    var i := Expanded(salt, 64) + Expanded(password, 64);
    StartIsExpanded(rounds[0].input, salt, password);
    ExpandedLength(salt, 64, 0);
    ExpandedLength(password, 64, 0);
    BlocksAreDigests(h, id, d, i, iterations, rounds, k);
    DerivedPrefix(h, id, password, salt, iterations, keyLen, 20 * |rounds|);
    assert Derived(h, id, password, salt, iterations, 20 * |rounds|) == Blocks(h, d, i, iterations, |rounds|);
  }

  // ---- there is such a run ---------------------------------------------------------------------

  lemma {:induction false} Digests(h: Hash, message: seq<byte>, n: nat) returns (digests: seq<Digest>)
    requires n > 0
    ensures |digests| == n && digests[0] == h(message)
    ensures forall k :: 0 < k < n ==> digests[k] == h(digests[k - 1])
  {
    if n == 1 {
      digests := [h(message)];
    } else {
      var init := Digests(h, message, n - 1);
      digests := init + [h(init[n - 2])];
    }
  }

  lemma OneRound(h: Hash, id: byte, iterations: nat, i: seq<byte>) returns (r: Round)
    requires iterations > 0
    ensures r.input == i && IsHashed(h, id, iterations, r) && IsFilled(r)
  {
    var message: seq<byte> := seq(64, _ => id) + i;
    var digests := Digests(h, message, iterations);
    var a := digests[iterations - 1];
    r := Round(i, message, digests, Copies(a, 64));
    forall k | 0 <= k < 64 ensures r.fill[k] == a[k % 20] {
      CopiesAt(a, 64, k);
    }
  }

  lemma {:induction false} RoundsFrom(h: Hash, id: byte, iterations: nat, i: seq<byte>, n: nat) returns (rounds: seq<Round>)
    requires iterations > 0 && |i| % 64 == 0
    ensures |rounds| == n && FollowOn(h, id, iterations, rounds) && (n > 0 ==> rounds[0].input == i)
    decreases n
  {
    hide IsHashed, IsFilled, Grows, Bumped;
    if n == 0 {
      rounds := [];
    } else {
      var r := OneRound(h, id, iterations, i);
      FilledLength(r);
      var rest := RoundsFrom(h, id, iterations, Bumped(i, r.fill), n - 1);
      GrowsIsBumped(i, r.fill, Bumped(i, r.fill));
      rounds := [r] + rest;
      assert forall k | 0 < k < n :: rounds[k] == rest[k - 1];
    }
  }

  lemma FilledLength(r: Round)
    requires IsFilled(r)
    ensures |r.fill| == 64
  {
  }

  /** Every derivation has a run of any length. */
  lemma RunExists(h: Hash, id: byte, password: seq<byte>, salt: seq<byte>, iterations: nat, n: nat)
    returns (rounds: seq<Round>)
    requires iterations > 0
    ensures |rounds| == n && IsRun(h, id, password, salt, iterations, rounds)
  {
    hide Expanded, StartsAs, IsHashed, IsFilled, Grows;
    var i := Expanded(salt, 64) + Expanded(password, 64);
    StartIsExpanded(i, salt, password);
    ExpandedLength(salt, 64, 0);
    ExpandedLength(password, 64, 0);
    rounds := RoundsFrom(h, id, iterations, i, n);
  }
}

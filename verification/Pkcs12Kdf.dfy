/**
 The PKCS#12 key derivation function of pkg/p12/p12.go (kdf, expand, addB),
 proved against a recursive reading of Appendix B.2 of RFC 7292. The hash is an
 uninterpreted function to exactly 20 bytes, the output size u of SHA-1; its block
 size v is 64 bytes.
 */
module Pkcs12Kdf {
  import opened Prelude
  import opened Bytes

  type Digest = d: seq<byte> | |d| == 20 witness seq(20, _ => 0)
  type Hash = seq<byte> -> Digest

  // ---- the specification ---------------------------------------------------

  /** The first n bytes of endlessly many copies of data. */
  function Copies(data: seq<byte>, n: nat): (s: seq<byte>)
    requires data != []
    ensures |s| == n
    decreases n
  {
    if n <= |data| then data[..n] else data + Copies(data, n - |data|)
  }

  /** Steps 2 and 3: copies of data up to the least multiple of v that holds it. */
  function Expanded(data: seq<byte>, v: nat): seq<byte>
    requires v > 0
  {
    if data == [] then [] else Copies(data, v * CeilDiv(|data|, v))
  }

  /** The hash applied n times. */
  function Iterated(h: Hash, n: nat, x: seq<byte>): (a: seq<byte>)
    ensures n > 0 ==> |a| == 20
  {
    if n == 0 then x else h(Iterated(h, n - 1, x))
  }

  /** The low-order |a| bytes of a + b + 1; b is cut to the length of a. */
  function PlusOne(a: seq<byte>, b: seq<byte>): seq<byte>
    requires |a| <= |b|
  {
    ToBigEndian(BigEndian(a) + BigEndian(b[..|a|]) + 1, |a|)
  }

  /** Step 6C: every 64-byte block I_j becomes (I_j + B + 1) mod 2^512. */
  function Bumped(i: seq<byte>, b: seq<byte>): (r: seq<byte>)
    requires |b| == 64
    ensures |r| == |i|
    decreases |i|
  {
    if |i| < 64 then i else PlusOne(i[..64], b) + Bumped(i[64..], b)
  }

  /** Steps 6B and 6C: the next I, from this round's A. */
  function NextInput(h: Hash, d: seq<byte>, i: seq<byte>, iterations: nat): (r: seq<byte>)
    requires iterations > 0 && |d| == 64
    ensures |r| == |i|
  {
    Bumped(i, Copies(Iterated(h, iterations, d + i), |d|))
  }

  /** Step 6: A_1 A_2 ... A_k. */
  function Blocks(h: Hash, d: seq<byte>, i: seq<byte>, iterations: nat, k: nat): seq<byte>
    requires iterations > 0 && |d| == 64
    decreases k
  {
    if k == 0 then []
    else Iterated(h, iterations, d + i) + Blocks(h, d, NextInput(h, d, i, iterations), iterations, k - 1)
  }

  lemma {:induction false} BlocksLength(h: Hash, d: seq<byte>, i: seq<byte>, iterations: nat, k: nat)
    requires iterations > 0 && |d| == 64
    ensures |Blocks(h, d, i, iterations, k)| == 20 * k
    decreases k
  {
    if k > 0 {
      BlocksLength(h, d, NextInput(h, d, i, iterations), iterations, k - 1);
    }
  }

  /** Steps 1 to 8 of Appendix B.2 of RFC 7292. */
  function Derived(h: Hash, id: byte, password: seq<byte>, salt: seq<byte>, iterations: nat, keyLen: nat): (key: seq<byte>)
    requires iterations > 0
    ensures |key| == keyLen
  {
    var d := seq(64, _ => id);
    var i := Expanded(salt, 64) + Expanded(password, 64);
    BlocksLength(h, d, i, iterations, CeilDiv(keyLen, 20));
    Blocks(h, d, i, iterations, CeilDiv(keyLen, 20))[..keyLen]
  }

  // ---- lemmas about the specification ------------------------------------------

  lemma {:induction false} CopiesAt(data: seq<byte>, n: nat, k: nat)
    requires data != [] && k < n
    ensures Copies(data, n)[k] == data[k % |data|]
    decreases n
  {
    if k < |data| {
      ModUnique(k, |data|, 0, k);
    } else {
      CopiesAt(data, n - |data|, k - |data|);
      ModSubtract(k, |data|);
    }
  }

  /** Expanded has the least length that is a multiple of v and at least the input's. */
  lemma ExpandedLength(data: seq<byte>, v: nat, n: nat)
    requires v > 0
    ensures |Expanded(data, v)| % v == 0 && |Expanded(data, v)| >= |data|
    ensures n % v == 0 && n >= |data| ==> n >= |Expanded(data, v)|
  {
    var q := CeilDiv(|data|, v);
    ModUnique(v * q, v, q, 0);
    if data != [] && n % v == 0 && n >= |data| {
      var m, r := DivMod(n, v);
      LeastMultiple(m, q, v);
    }
  }

  lemma Monotone(v: nat, a: nat, b: nat)
    requires a <= b
    ensures v * a <= v * b
  {
  }

  lemma LeastMultiple(m: nat, q: nat, v: nat)
    requires v * m > (q - 1) * v
    ensures v * m >= v * q
  {
    if m < q {
      Monotone(v, m, q - 1);
    } else {
      Monotone(v, q, m);
    }
  }

  /** A longer derivation extends a shorter one. */
  lemma {:induction false} BlocksPrefix(h: Hash, d: seq<byte>, i: seq<byte>, iterations: nat, j: nat, k: nat)
    requires iterations > 0 && |d| == 64 && j <= k
    ensures Blocks(h, d, i, iterations, j) <= Blocks(h, d, i, iterations, k)
    decreases j
  {
    if j > 0 {
      BlocksPrefix(h, d, NextInput(h, d, i, iterations), iterations, j - 1, k - 1);
      BlocksStep(h, d, i, iterations, j);
      BlocksStep(h, d, i, iterations, k);
    }
  }

  lemma BlocksStep(h: Hash, d: seq<byte>, i: seq<byte>, iterations: nat, k: nat)
    requires iterations > 0 && |d| == 64 && k > 0
    ensures Blocks(h, d, i, iterations, k) ==
      Iterated(h, iterations, d + i) + Blocks(h, d, NextInput(h, d, i, iterations), iterations, k - 1)
  {
  }

  lemma DerivedPrefix(h: Hash, id: byte, password: seq<byte>, salt: seq<byte>, iterations: nat, m: nat, n: nat)
    requires iterations > 0 && m <= n
    ensures Derived(h, id, password, salt, iterations, m) == Derived(h, id, password, salt, iterations, n)[..m]
  {
    var d := seq(64, _ => id);
    var i := Expanded(salt, 64) + Expanded(password, 64);
    var j, k := CeilDiv(m, 20), CeilDiv(n, 20);
    BlocksPrefix(h, d, i, iterations, j, k);
    BlocksLength(h, d, i, iterations, j);
    BlocksLength(h, d, i, iterations, k);
    assert Blocks(h, d, i, iterations, j)[..m] == Blocks(h, d, i, iterations, k)[..m];
  }

  lemma {:induction false} BumpedAppend(x: seq<byte>, block: seq<byte>, b: seq<byte>)
    requires |b| == 64 && |x| % 64 == 0 && |block| == 64
    ensures Bumped(x + block, b) == Bumped(x, b) + PlusOne(block, b)
  {
    if x == [] {
      assert x + block == block && block[..64] == block && block[64..] == [];
    } else {
      assert (x + block)[..64] == x[..64] && (x + block)[64..] == x[64..] + block;
      BumpedAppend(x[64..], block, b);
    }
  }

  lemma PlusOneValue(a: seq<byte>, b: seq<byte>)
    requires |a| == |b|
    ensures Shift(1, |b|) > 0 && BigEndian(PlusOne(a, b)) == (BigEndian(a) + BigEndian(b) + 1) % Shift(1, |b|)
  {
    hide BigEndian, Shift, ToBigEndian;
    assert b[..|a|] == b;
    ValueMod(BigEndian(a) + BigEndian(b) + 1, |b|);
  }

  /** What step 6C means, block by block: the value of block j grows by B + 1 modulo 2^512. */
  lemma {:induction false} BumpedBlock(i: seq<byte>, b: seq<byte>, j: nat)
    requires |b| == 64 && |i| % 64 == 0 && 64 * j < |i|
    ensures 64 * j + 64 <= |i| && Shift(1, |b|) > 0
    ensures BigEndian(Bumped(i, b)[64 * j..64 * j + 64]) ==
      (BigEndian(i[64 * j..64 * j + 64]) + BigEndian(b) + 1) % Shift(1, |b|)
  {
    hide BigEndian, Shift;
    assert Shift(1, |b|) > 0 by { ValueMod(0, |b|); }
    if j == 0 {
      PlusOneValue(i[..64], b);
      assert Bumped(i, b)[0..64] == PlusOne(i[..64], b);
    } else {
      BumpedBlock(i[64..], b, j - 1);
      assert i[64..][64 * (j - 1)..64 * (j - 1) + 64] == i[64 * j..64 * j + 64];
      assert Bumped(i, b)[64..] == Bumped(i[64..], b);
      assert Bumped(i, b)[64..][64 * (j - 1)..64 * (j - 1) + 64] == Bumped(i, b)[64 * j..64 * j + 64];
    }
  }

  // ---- the loops ------------------------------------------------------------------

  /** expand; a nil result is the empty array. */
  method Expand(data: seq<byte>, v: nat) returns (out: array<byte>)
    requires v > 0
    ensures fresh(out) && out[..] == Expanded(data, v)
  {
    if |data| == 0 {
      out := new byte[0];
      return;
    }
    var n := v * ((|data| + v - 1) / v);
    out := new byte[n];
    for i := 0 to n
      invariant forall k :: 0 <= k < i ==> out[k] == data[k % |data|]
    {
      out[i] := data[i % |data|];
    }
    forall k | 0 <= k < n ensures out[k] == Copies(data, n)[k] {
      CopiesAt(data, n, k);
    }
  }

  /** The loop of addB, on the slice a[lo..lo+n]. */
  method AddColumns(a: array<byte>, lo: nat, n: nat, b: array<byte>)
    requires lo + n <= a.Length && n <= b.Length && a != b
    modifies a
    ensures a[lo..lo + n] == Digits(old(a[lo..lo + n]), b[..n], 0)
    ensures forall k :: 0 <= k < a.Length && (k < lo || k >= lo + n) ==> a[k] == old(a[k])
  {
    ghost var was: seq<byte>, add: seq<byte> := a[lo..lo + n], b[..n];
    var carry := 1;
    var i := n - 1;
    while i >= 0
      invariant -1 <= i < n && carry == CarryFrom(was, add, i + 1)
      invariant forall k :: lo <= k <= lo + i ==> a[k] == was[k - lo]
      invariant forall k :: lo + i < k < lo + n ==> a[k] == Digit(was, add, k - lo)
      invariant forall k :: 0 <= k < a.Length && (k < lo || k >= lo + n) ==> a[k] == old(a[k])
      invariant forall k :: 0 <= k < n ==> b[k] == add[k]
    {
      var sum: int := a[lo + i] as int + b[i] as int + carry;
      a[lo + i] := sum % 256;
      carry := sum / 256;
      i := i - 1;
    }
    assert b[..n] == add;
    assert a[lo..lo + n] == Digits(was, add, i + 1);
  }

  /** addB on the slice a[lo..lo+n]: one big-endian addition of B plus one, nothing else in a changes. */
  method AddB(a: array<byte>, lo: nat, n: nat, b: array<byte>)
    requires lo + n <= a.Length && n <= b.Length && a != b
    modifies a
    ensures a[lo..lo + n] == PlusOne(old(a[lo..lo + n]), b[..])
    ensures a[..lo] == old(a[..lo]) && a[lo + n..] == old(a[lo + n..])
  {
    ghost var was: seq<byte> := a[lo..lo + n];
    ghost var zero := 0;
    AddColumns(a, lo, n, b);
    DigitsArePlusOne(was, b[..n], zero, a[lo..lo + n]);
    assert b[..][..n] == b[..n] && b[..n][..n] == b[..n];
  }

  /** The carry out of columns k and up, added from the right with an initial carry of one. */
  function CarryFrom(a: seq<byte>, b: seq<byte>, k: nat): (c: nat)
    requires k <= |a| == |b|
    ensures c <= 1
    decreases |a| - k
  {
    if k == |a| then 1 else (a[k] as int + b[k] as int + CarryFrom(a, b, k + 1)) / 256
  }

  function Digit(a: seq<byte>, b: seq<byte>, k: nat): byte
    requires k < |a| == |b|
  {
    (a[k] as int + b[k] as int + CarryFrom(a, b, k + 1)) % 256
  }

  function Digits(a: seq<byte>, b: seq<byte>, k: nat): (s: seq<byte>)
    requires k <= |a| == |b|
    ensures |s| == |a| - k
    ensures forall j :: k <= j < |a| ==> s[j - k] == Digit(a, b, j)
    decreases |a| - k
  {
    if k == |a| then [] else [Digit(a, b, k)] + Digits(a, b, k + 1)
  }

  lemma {:induction false} DigitsSum(a: seq<byte>, b: seq<byte>, k: nat)
    requires k <= |a| == |b|
    ensures BigEndian(Digits(a, b, k)) + Shift(CarryFrom(a, b, k), |a| - k) == BigEndian(a[k..]) + BigEndian(b[k..]) + 1
    decreases |a| - k
  {
    hide Shift;
    NoDigits(a[k..], b[k..]);
    if k < |a| {
      DigitsSum(a, b, k + 1);
      Column(a[k], b[k], CarryFrom(a, b, k + 1), Digit(a, b, k), CarryFrom(a, b, k),
             Digits(a, b, k + 1), a[k + 1..], b[k + 1..]);
      assert a[k..] == [a[k]] + a[k + 1..] && b[k..] == [b[k]] + b[k + 1..];
    }
  }

  lemma NoDigits(a: seq<byte>, b: seq<byte>)
    ensures |a| == |b| == 0 ==> Shift(1, |a|) == BigEndian(a) + BigEndian(b) + 1
  {
  }

  /** Schoolbook addition computes a + b + 1 modulo 256^|a|. */
  lemma DigitsArePlusOne(a: seq<byte>, b: seq<byte>, k: nat, digits: seq<byte>)
    requires k == 0 && |a| == |b| && digits == Digits(a, b, k)
    ensures digits == PlusOne(a, b)
  {
    DigitsSum(a, b, k);
    assert a[k..] == a && b[k..] == b && b[..|a|] == b;
    LowOrder(BigEndian(a) + BigEndian(b) + 1, digits, CarryFrom(a, b, k));
  }

  /** One column of the addition: the carry moves the right weight into the next column. */
  lemma Column(x: byte, y: byte, carry: nat, low: byte, high: nat, tail: seq<byte>, was: seq<byte>, add: seq<byte>)
    requires |tail| == |was| == |add| && low + 256 * high == x + y + carry
    requires BigEndian(tail) + Shift(carry, |tail|) == BigEndian(was) + BigEndian(add) + 1
    ensures BigEndian([low] + tail) + Shift(high, |tail| + 1) == BigEndian([x] + was) + BigEndian([y] + add) + 1
  {
    BigEndianCons(low, tail);
    BigEndianCons(x, was);
    BigEndianCons(y, add);
    Weights(x, y, carry, low, high, |tail|);
  }

  lemma Weights(x: nat, y: nat, carry: nat, low: nat, high: nat, n: nat)
    requires low + 256 * high == x + y + carry
    ensures Shift(low, n) + Shift(high, n + 1) == Shift(x, n) + Shift(y, n) + Shift(carry, n)
  {
    ShiftSum(x, y, n);
    ShiftSum(x + y, carry, n);
    ShiftCarry(high, n);
    ShiftSum(low, 256 * high, n);
  }

  /** A sequence whose next n elements are rewritten, cut at the ends of the rewritten part. */
  lemma Splice(was: seq<byte>, j: nat, n: nat, now: seq<byte>, next: seq<byte>)
    requires j + n <= |was| == |now| == |next| && now[j..] == was[j..]
    requires next[..j] == now[..j] && next[j + n..] == now[j + n..]
    ensures next[..j + n] == now[..j] + next[j..j + n]
    ensures now[j..j + n] == was[j..j + n] && next[j + n..] == was[j + n..]
    ensures was[..j + n] == was[..j] + was[j..j + n]
  {
    assert now[j..][..n] == now[j..j + n] && was[j..][..n] == was[j..j + n];
    assert now[j..][n..] == now[j + n..] && was[j..][n..] == was[j + n..];
  }

  lemma NothingBumped(b: seq<byte>)
    requires |b| == 64
    ensures Bumped([], b) == []
  {
  }

  /** The chunk loop of kdf: addB once on each 64-byte block of I. */
  method AddToBlocks(i: array<byte>, b: array<byte>)
    requires i != b && b.Length == 64 && i.Length % 64 == 0
    modifies i
    ensures i[..] == Bumped(old(i[..]), b[..])
  {
    hide PlusOne, Bumped;
    ghost var was: seq<byte>, add: seq<byte> := i[..], b[..];
    NothingBumped(add);
    var j := 0;
    while j < i.Length
      invariant 0 <= j <= i.Length && j % 64 == 0
      invariant b[..] == add
      invariant i[..][..j] == Bumped(was[..j], add) && i[..][j..] == was[j..]
    {
      ghost var now: seq<byte> := i[..];
      AddB(i, j, 64, b);
      Splice(was, j, 64, now, i[..]);
      BumpedAppend(was[..j], was[j..j + 64], add);
      j := j + 64;
    }
    assert was[..j] == was && i[..][..j] == i[..];
  }

  /** The hash loop of kdf: A = H^iterations(x). */
  method HashTimes(h: Hash, x: seq<byte>, iterations: int) returns (a: seq<byte>)
    ensures a == Iterated(h, if iterations < 1 then 1 else iterations, x)
  {
    a := h(x);
    var i := 1;
    while i < iterations
      invariant 1 <= i && (i <= iterations || i == 1)
      invariant a == Iterated(h, i, x)
    {
      a := h(a);
      i := i + 1;
    }
  }

  /** The fill loop of kdf: B = A repeated to 64 bytes. */
  method Fill(b: array<byte>, a: seq<byte>)
    requires b.Length == 64 && |a| == 20
    modifies b
    ensures b[..] == Copies(a, b.Length)
  {
    for j := 0 to b.Length
      invariant forall k :: 0 <= k < j ==> b[k] == a[k % 20]
    {
      b[j] := a[j % 20];
    }
    forall k | 0 <= k < b.Length ensures b[k] == Copies(a, b.Length)[k] {
      CopiesAt(a, b.Length, k);
    }
  }

  /** append(S, P...). */
  method Join(s: array<byte>, p: array<byte>) returns (i: array<byte>)
    ensures fresh(i) && i[..] == s[..] + p[..]
  {
    i := new byte[s.Length + p.Length];
    forall k | 0 <= k < s.Length {
      i[k] := s[k];
    }
    forall k | 0 <= k < p.Length {
      i[s.Length + k] := p[k];
    }
  }

  /** I = S || P. */
  method Input(salt: seq<byte>, password: seq<byte>) returns (i: array<byte>)
    ensures fresh(i) && i[..] == Expanded(salt, 64) + Expanded(password, 64) && i.Length % 64 == 0
  {
    var s := Expand(salt, 64);
    var p := Expand(password, 64);
    i := Join(s, p);
    ExpandedLength(salt, 64, 0);
    ExpandedLength(password, 64, 0);
  }

  /** The body of kdf's loop: this round's A, leaving in I the next round's input. */
  method Round(h: Hash, d: seq<byte>, i: array<byte>, b: array<byte>, iterations: int) returns (a: seq<byte>)
    requires |d| == 64 == b.Length && i.Length % 64 == 0 && i != b
    modifies i, b
    ensures var n: nat := if iterations < 1 then 1 else iterations;
      a == Iterated(h, n, d + old(i[..])) && i[..] == NextInput(h, d, old(i[..]), n)
  {
    a := HashTimes(h, d + i[..], iterations);
    Fill(b, a);
    AddToBlocks(i, b);
  }

  lemma Associate(x: seq<byte>, y: seq<byte>, z: seq<byte>)
    ensures x + (y + z) == x + y + z
  {
  }

  /** kdf; a count below one iterates once, as the loop does. */
  method Kdf(h: Hash, id: byte, password: seq<byte>, salt: seq<byte>, iterations: int, keyLen: nat)
    returns (result: seq<byte>)
    ensures result == Derived(h, id, password, salt, if iterations < 1 then 1 else iterations, keyLen)
  {
    ghost var n: nat := if iterations < 1 then 1 else iterations;
    ghost var total := CeilDiv(keyLen, 20);
    var d := seq(64, _ => id);
    var i := Input(salt, password);
    ghost var all := Blocks(h, d, i[..], n, total);
    var b := new byte[64];
    result := [];
    ghost var rounds := 0;
    while |result| < keyLen
      invariant rounds <= total && |result| == 20 * rounds
      invariant i.Length % 64 == 0
      invariant all == result + Blocks(h, d, i[..], n, total - rounds)
      decreases total - rounds
    {
      BlocksStep(h, d, i[..], n, total - rounds);
      var a := Round(h, d, i, b, iterations);
      Associate(result, a, Blocks(h, d, i[..], n, total - rounds - 1));
      result := result + a;
      rounds := rounds + 1;
    }
    result := result[..keyLen];
  }
}

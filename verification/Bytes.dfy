/** Bytes, and byte strings read as big-endian numbers. */
module Bytes {
  import opened Prelude

  type byte = x: int | 0 <= x < 256

  /** x * 256^n. */
  function Shift(x: nat, n: nat): nat {
    if n == 0 then x else 256 * Shift(x, n - 1)
  }

  /** The big-endian value of s. */
  function BigEndian(s: seq<byte>): nat {
    if s == [] then 0 else 256 * BigEndian(s[..|s| - 1]) + s[|s| - 1]
  }

  /** The n low-order bytes of x, most significant first. */
  function ToBigEndian(x: nat, n: nat): (s: seq<byte>)
    ensures |s| == n
  {
    if n == 0 then [] else ToBigEndian(x / 256, n - 1) + [x % 256]
  }

  lemma {:induction false} ShiftSum(x: nat, y: nat, n: nat)
    ensures Shift(x + y, n) == Shift(x, n) + Shift(y, n)
  {
    if n > 0 {
      ShiftSum(x, y, n - 1);
    }
  }

  lemma {:induction false} ShiftZero(n: nat)
    ensures Shift(0, n) == 0
  {
    if n > 0 {
      ShiftZero(n - 1);
    }
  }

  lemma {:induction false} ShiftCarry(x: nat, n: nat)
    ensures Shift(256 * x, n) == Shift(x, n + 1)
  {
    if n > 0 {
      ShiftCarry(x, n - 1);
    }
  }

  lemma {:induction false} ShiftTimes(x: nat, n: nat)
    ensures Shift(x, n) == x * Shift(1, n) && Shift(1, n) > 0
  {
    if n > 0 {
      ShiftTimes(x, n - 1);
      Commute(x, Shift(1, n - 1));
    }
  }

  lemma Commute(x: nat, p: nat)
    ensures 256 * (x * p) == x * (256 * p)
  {
  }

  lemma {:induction false} BigEndianBound(s: seq<byte>)
    ensures BigEndian(s) < Shift(1, |s|)
  {
    if s != [] {
      BigEndianBound(s[..|s| - 1]);
    }
  }

  lemma {:induction false} BigEndianCons(x: byte, s: seq<byte>)
    ensures BigEndian([x] + s) == Shift(x, |s|) + BigEndian(s)
  {
    if s == [] {
      assert [x] + s == [x];
    } else {
      var n := |s| - 1;
      BigEndianCons(x, s[..n]);
      assert ([x] + s)[..n + 1] == [x] + s[..n];
    }
  }

  /** Adding anything above the n low-order bytes does not change them. */
  lemma {:induction false} LowOrder(x: nat, s: seq<byte>, high: nat)
    requires x == BigEndian(s) + Shift(high, |s|)
    ensures ToBigEndian(x, |s|) == s
  {
    if s != [] {
      LowOrder(x / 256, s[..|s| - 1], high);
    }
  }

  lemma {:induction false} ValueOf(x: nat, n: nat)
    requires x < Shift(1, n)
    ensures BigEndian(ToBigEndian(x, n)) == x
  {
    if n > 0 {
      ValueOf(x / 256, n - 1);
      assert ToBigEndian(x, n)[..n - 1] == ToBigEndian(x / 256, n - 1);
    }
  }

  /** The n low-order bytes are the value modulo 256^n. */
  lemma ValueMod(x: nat, n: nat)
    ensures Shift(1, n) > 0 && BigEndian(ToBigEndian(x, n)) == x % Shift(1, n)
  {
    ShiftTimes(1, n);
    var q, r := DivMod(x, Shift(1, n));
    ShiftTimes(q, n);
    ValueOf(r, n);
    LowOrder(x, ToBigEndian(r, n), q);
  }

  // ---- division by a variable -----------------------------------------------

  lemma DivMod(k: nat, m: nat) returns (q: nat, r: nat)
    requires m > 0
    ensures k == q * m + r && r < m && q == k / m && r == k % m
  {
    q, r := k / m, k % m;
  }

  lemma TimesPositive(m: nat, d: nat)
    requires d > 0
    ensures m * d >= m
  {
    assert m * (d - 1) >= 0;
  }

  lemma ModUnique(k: nat, m: nat, q: nat, r: nat)
    requires k == m * q + r && r < m
    ensures k % m == r && k / m == q
  {
    var d := q - k / m;
    assert m * d == k % m - r;
    if d > 0 {
      TimesPositive(m, d);
    } else if d < 0 {
      TimesPositive(m, -d);
    }
  }

  lemma ModSubtract(k: nat, m: nat)
    requires 0 < m <= k
    ensures (k - m) % m == k % m
  {
    var q, r := DivMod(k, m);
    assert m * (q - 1) == m * q - m;
    assert q > 0;
    ModUnique(k - m, m, q - 1, r);
  }

  function CeilDiv(a: nat, b: nat): (q: nat)
    requires b > 0
    ensures q * b >= a && (q > 0 ==> (q - 1) * b < a)
  {
    (a + b - 1) / b
  }
}

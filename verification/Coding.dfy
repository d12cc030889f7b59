/** Fixed-width and variable-length integer encodings, on bytes. */
module Coding {
  import opened Entries

  function Pow(base: nat, n: nat): (p: nat)
    requires base > 0
    ensures p > 0
  {
    if n == 0 then 1 else base * Pow(base, n - 1)
  }

  // ----- Fixed width, little endian -----

  function Fixed(n: nat, v: nat): (r: seq<Byte>)
    ensures |r| == n
  {
    if n == 0 then [] else [v % 256] + Fixed(n - 1, v / 256)
  }

  function DecodeFixed(b: seq<Byte>): nat {
    if b == [] then 0 else b[0] + 256 * DecodeFixed(b[1..])
  }

  lemma {:induction false} FixedRoundTrip(n: nat, v: nat)
    requires v < Pow(256, n)
    ensures DecodeFixed(Fixed(n, v)) == v
  {
    if n > 0 {
      FixedRoundTrip(n - 1, v / 256);
      assert Fixed(n, v)[1..] == Fixed(n - 1, v / 256);
    }
  }

  // ----- Variable length, seven bits a byte -----

  function Varint(v: nat): (r: seq<Byte>)
    ensures |r| > 0
  {
    if v < 128 then [v] else [v % 128 + 128] + Varint(v / 128)
  }

  /** The unrolled 32-bit encoder writes the general encoding. */
  method EncodeVarint32(v: nat) returns (dst: seq<Byte>)
    requires v < 0x1_0000_0000
    ensures dst == Varint(v) && |dst| <= 5
  {
    if v < 0x80 {
      dst := [v];
    } else if v < 0x4000 {
      dst := [v % 128 + 128, v / 0x80];
    } else if v < 0x20_0000 {
      dst := [v % 128 + 128, v / 0x80 % 128 + 128, v / 0x4000];
    } else if v < 0x1000_0000 {
      dst := [v % 128 + 128, v / 0x80 % 128 + 128, v / 0x4000 % 128 + 128, v / 0x20_0000];
    } else {
      dst := [v % 128 + 128, v / 0x80 % 128 + 128, v / 0x4000 % 128 + 128, v / 0x20_0000 % 128 + 128, v / 0x1000_0000];
    }
    UnrolledVarint(v);
  }

  lemma UnrolledVarint(v: nat)
    requires v < 0x1_0000_0000
    ensures v >= 0x80 ==> Varint(v) == [v % 128 + 128] + Varint(v / 0x80)
    ensures v >= 0x4000 ==> Varint(v / 0x80) == [v / 0x80 % 128 + 128] + Varint(v / 0x4000)
    ensures v >= 0x20_0000 ==> Varint(v / 0x4000) == [v / 0x4000 % 128 + 128] + Varint(v / 0x20_0000)
    ensures v >= 0x1000_0000 ==> Varint(v / 0x20_0000) == [v / 0x20_0000 % 128 + 128] + Varint(v / 0x1000_0000)
  {
    assert v / 0x80 / 0x80 == v / 0x4000 && v / 0x4000 / 0x80 == v / 0x20_0000 &&
           v / 0x20_0000 / 0x80 == v / 0x1000_0000;
  }

  /** The number carried by the low seven bits of the first n bytes. */
  function Bits(b: seq<Byte>, n: nat): nat
    requires n <= |b|
  {
    if n == 0 then 0 else Bits(b, n - 1) + b[n - 1] % 128 * Pow(128, n - 1)
  }

  /** A varint ends at its first byte below 128. */
  predicate EndsAt(b: seq<Byte>, n: nat) {
    0 < n <= |b| && b[n - 1] < 128 && forall i :: 0 <= i < n - 1 ==> b[i] >= 128
  }

  lemma {:induction false} BitsShift(b: seq<Byte>, n: nat)
    requires n < |b|
    ensures Bits(b, n + 1) == b[0] % 128 + 128 * Bits(b[1..], n)
  {
    if n == 0 {
      assert Bits(b, 1) == b[0] % 128 * Pow(128, 0);
    } else {
      BitsShift(b, n - 1);
      assert b[n] == b[1..][n - 1];
      assert b[n] % 128 * Pow(128, n) == 128 * (b[1..][n - 1] % 128 * Pow(128, n - 1));
    }
  }

  /** Decoding what was encoded, whatever follows it. */
  lemma {:induction false} VarintRoundTrip(v: nat, rest: seq<Byte>)
    ensures EndsAt(Varint(v) + rest, |Varint(v)|)
    ensures Bits(Varint(v) + rest, |Varint(v)|) == v
  {
    hide Varint, Bits, Pow, EndsAt;
    var b := Varint(v) + rest;
    if v < 128 {
      OneByte(v, rest);
    } else {
      VarintRoundTrip(v / 128, rest);
      var n := |Varint(v / 128)|;
      FirstThenRest(v, rest);
      BitsShift(b, n);
      LaterEnd(b, n);
    }
  }

  lemma OneByte(v: nat, rest: seq<Byte>)
    requires v < 128
    ensures |Varint(v)| == 1 && EndsAt(Varint(v) + rest, 1) && Bits(Varint(v) + rest, 1) == v
  {
    assert Pow(128, 0) == 1;
    assert Bits(Varint(v) + rest, 0) == 0;
  }

  lemma FirstThenRest(v: nat, rest: seq<Byte>)
    requires v >= 128
    ensures var b := Varint(v) + rest;
            |Varint(v)| == 1 + |Varint(v / 128)| && b[0] == v % 128 + 128 && b[1..] == Varint(v / 128) + rest
  {
    assert (Varint(v) + rest)[1..] == Varint(v / 128) + rest;
  }

  lemma LaterEnd(b: seq<Byte>, n: nat)
    requires b != [] && b[0] >= 128 && EndsAt(b[1..], n)
    ensures EndsAt(b, n + 1)
  {
    assert forall i :: 1 <= i < |b| ==> b[i] == b[1..][i - 1];
  }

  lemma {:induction false} VarintLength(v: nat, n: nat)
    requires v < Pow(128, n) && n > 0
    ensures |Varint(v)| <= n
  {
    if v >= 128 {
      VarintLength(v / 128, n - 1);
    }
  }

  lemma {:induction false} PowSeven(n: nat)
    ensures Pow(2, 7 * n) == Pow(128, n)
  {
    if n > 0 {
      PowSeven(n - 1);
      assert Pow(2, 7 * n) == 4 * Pow(2, 7 * n - 2);
      assert Pow(2, 7 * n - 2) == 4 * Pow(2, 7 * n - 4);
      assert Pow(2, 7 * n - 4) == 8 * Pow(2, 7 * n - 7) by { assert Pow(2, 7 * n - 5) == 4 * Pow(2, 7 * n - 7); }
    }
  }

  /** A left shift. */
  function ShiftLeft(x: nat, bits: nat): nat {
    x * Pow(2, bits)
  }

  /** Adding the next seven bits under wrap-around at any modulus. */
  lemma NextBits(b: seq<Byte>, n: nat, v: nat, m: nat)
    requires n < |b| && m > 0 && v == Bits(b, n) % m
    ensures (v + ShiftLeft(b[n] % 128, 7 * n)) % m == Bits(b, n + 1) % m
  {
    PowSeven(n);
    var add := b[n] % 128 * Pow(128, n);
    assert Bits(b, n + 1) == Bits(b, n) + add;
    ModuloSum(Bits(b, n), add, m);
  }

  lemma ModuloSum(a: nat, c: nat, m: nat)
    requires m > 0
    ensures (a % m + c) % m == (a + c) % m
  {
    var q := a / m;
    assert a == m * q + a % m;
    ModuloShift(a % m + c, q, m);
    assert a + c == a % m + c + m * q;
  }

  lemma TimesAtLeast(m: nat, k: nat)
    requires k > 0
    ensures m * k >= m
  {
    assert m * k == m + m * (k - 1);
  }

  /** Quotient and remainder are unique. */
  lemma Remainder(q: int, r: int, p: int, s: int, m: nat)
    requires 0 <= r < m && 0 <= s < m && m * q + r == m * p + s
    ensures r == s
  {
    var d := p - q;
    assert m * d == m * p - m * q && m * -d == -(m * d);
    if d > 0 {
      TimesAtLeast(m, d);
    } else if d < 0 {
      TimesAtLeast(m, -d);
    }
  }

  lemma ModuloShift(a: nat, q: nat, m: nat)
    requires m > 0
    ensures (a + m * q) % m == a % m
  {
    var x := a + m * q;
    assert x == m * (x / m) + x % m && a == m * (a / m) + a % m;
    assert x == m * (a / m + q) + a % m;
    Remainder(x / m, x % m, a / m + q, a % m, m);
  }

  lemma NoBits(b: seq<Byte>)
    ensures Bits(b, 0) == 0
  {
  }

  /** Reads one varint of at most five bytes from position p; 32-bit shifts discard what overflows. */
  method GetVarint32Ptr(b: seq<Byte>, p: nat) returns (ok: bool, v: nat, q: nat)
    requires p <= |b|
    ensures !ok ==> forall n :: n <= 5 ==> !EndsAt(b[p..], n)
    ensures ok ==> p < q <= p + 5 && EndsAt(b[p..], q - p) && v == Bits(b[p..], q - p) % 0x1_0000_0000
  {
    hide Bits, Pow, ShiftLeft;
    NoBits(b[p..]);
    ok, v, q := false, 0, p;
    var shift := 0;
    ghost var t := b[p..];
    while shift <= 28 && q < |b|
      invariant p <= q <= |b| && shift == 7 * (q - p) && shift <= 35
      invariant v == Bits(t, q - p) % 0x1_0000_0000
      invariant forall i :: 0 <= i < q - p ==> t[i] >= 128
    {
      var byte := b[q];
      assert byte == t[q - p];
      NextBits(t, q - p, v, 0x1_0000_0000);
      v := (v + ShiftLeft(byte % 128, shift)) % 0x1_0000_0000;
      q := q + 1;
      if byte < 128 {
        ok := true;
        return;
      }
      shift := shift + 7;
    }
  }
}

/** Protocol Buffers integers on the wire: base-128 varints of 64 and 32 bits, and zig-zag. */
module PbVarint {
  import opened Entries
  import opened Coding

  const MAX_32: nat := 0x1_0000_0000
  const MAX_64: nat := 0x1_0000_0000_0000_0000

  /** Some bytes decoded: the value, and how many bytes it took. */
  datatype Decoded<+T> = Decoded(value: T, used: nat)

  // ----- Encoding -----

  lemma VarintStep(v: nat)
    ensures Varint(v) == if v < 128 then [v] else [v % 128 + 128] + Varint(v / 128)
  {
  }

  /** The last continuation bit cleared. */
  function Cleared(b: seq<Byte>): seq<Byte>
    requires b != [] && b[|b| - 1] >= 128
  {
    b[|b| - 1 := b[|b| - 1] - 128]
  }

  lemma ClearedLast(b: seq<Byte>, x: Byte)
    requires x < 128
    ensures Cleared(b + [x + 128]) == b + [x]
  {
  }

  /** The encoder's loop, which sets every continuation bit and clears the last. */
  method EncodeVarint(v: nat) returns (buffer: seq<Byte>)
    ensures buffer == Varint(v) && (v < MAX_64 ==> |buffer| <= 10)
  {
    hide Varint, Cleared;
    if v < MAX_64 {
      TenBytes(v);
    }
    VarintStep(v);
    if v <= 0x7F {
      return [v];
    }
    buffer := [];
    var value := v;
    assert [] + Varint(v) == Varint(v);
    while value != 0
      invariant value != 0 ==> Varint(v) == buffer + Varint(value)
      invariant value == 0 ==> buffer != [] && buffer[|buffer| - 1] >= 128 && Varint(v) == Cleared(buffer)
      decreases value
    {
      EncodeStep(v, buffer, value);
      buffer := buffer + [value % 128 + 128];
      value := value / 128;
    }
    buffer := Cleared(buffer);
  }

  /** One turn: seven more bits, with the continuation bit set. */
  lemma EncodeStep(v: nat, buffer: seq<Byte>, value: nat)
    requires Varint(v) == buffer + Varint(value)
    ensures value >= 128 ==> Varint(v) == buffer + [value % 128 + 128] + Varint(value / 128)
    ensures value < 128 ==> Varint(v) == Cleared(buffer + [value % 128 + 128])
  {
    hide Varint, Cleared;
    VarintStep(value);
    if value < 128 {
      ClearedLast(buffer, value);
    } else {
      assert buffer + ([value % 128 + 128] + Varint(value / 128)) == buffer + [value % 128 + 128] + Varint(value / 128);
    }
  }

  lemma TenBytes(v: nat)
    requires v < MAX_64
    ensures |Varint(v)| <= 10
  {
    assert Pow(128, 5) == 0x8_0000_0000;
    assert Pow(128, 10) == Pow(128, 5) * Pow(128, 5) by { PowSum(5, 5); }
    VarintLength(v, 10);
  }

  lemma {:induction false} PowSum(m: nat, n: nat)
    ensures Pow(128, m + n) == Pow(128, m) * Pow(128, n)
  {
    if m > 0 {
      PowSum(m - 1, n);
      assert Pow(128, m + n) == 128 * (Pow(128, m - 1) * Pow(128, n));
    }
  }

  // ----- Decoding 64 bits -----

  /** Where the varint at the front ends, if it does so within `limit` bytes. */
  function End(b: seq<Byte>, from: nat, limit: nat): (r: Option<nat>)
    ensures r.Some? ==> from < r.value <= limit && r.value <= |b| && b[r.value - 1] < 128
    ensures r.Some? ==> forall i :: from <= i < r.value - 1 ==> b[i] >= 128
    decreases limit - from
  {
    if from >= limit || from >= |b| then None
    else if b[from] < 128 then Some(from + 1)
    else End(b, from + 1, limit)
  }

  lemma {:induction false} EndIs(b: seq<Byte>, from: nat, limit: nat, n: nat)
    requires EndsAt(b, n) && from < n <= limit
    ensures End(b, from, limit) == Some(n)
    decreases limit - from
  {
    if from + 1 < n {
      EndIs(b, from + 1, limit, n);
    }
  }

  /** The value of a varint: bits beyond the sixty-fourth are shifted out. */
  function Decode64(b: seq<Byte>): (r: Option<Decoded<nat>>)
    ensures r.Some? ==> 0 < r.value.used <= |b| && r.value.value < MAX_64
  {
    match End(b, 0, 10)
    case None => None
    case Some(n) => Some(Decoded(Bits(b, n) % MAX_64, n))
  }

  method DecodeVarint(b: seq<Byte>) returns (r: Option<Decoded<nat>>)
    ensures r == Decode64(b)
  {
    var bitpos, result, i := 0, 0, 0;
    while true
      invariant i <= |b| && i <= 10 && bitpos == 7 * i && result == Bits(b, i) % MAX_64
      invariant End(b, 0, 10) == End(b, i, 10)
      decreases |b| - i
    {
      if bitpos >= 64 {
        return None;
      }
      if i == |b| {
        return None;
      }
      var byte := b[i];
      NextBits(b, i, result, MAX_64);
      result := (result + ShiftLeft(byte % 128, bitpos)) % MAX_64;
      i := i + 1;
      bitpos := bitpos + 7;
      if byte < 128 {
        return Some(Decoded(result, i));
      }
    }
  }

  /** Every 64-bit value survives, whatever follows it. */
  lemma Varint64RoundTrip(v: nat, rest: seq<Byte>)
    requires v < MAX_64
    ensures Decode64(Varint(v) + rest) == Some(Decoded(v, |Varint(v)|))
  {
    hide Varint, Bits, Pow, End;
    VarintRoundTrip(v, rest);
    TenBytes(v);
    EndIs(Varint(v) + rest, 0, 10, |Varint(v)|);
  }

  // ----- Decoding 32 bits -----

  /** Bitwise or. */
  function Or(x: nat, y: nat): nat
    decreases x + y
  {
    if x == 0 && y == 0 then 0
    else (if x % 2 == 1 || y % 2 == 1 then 1 else 0) + 2 * Or(x / 2, y / 2)
  }

  /** Past the thirty-second bit a byte may be padding, or the sign extension of a negative value. */
  predicate Refused(byte: Byte, bitpos: nat, result: nat) {
    byte % 128 != 0 && (result / 0x8000_0000 == 0 || byte != if bitpos < 63 then 0xFF else 0x01)
  }

  /** The decoder's turns from byte i on, in 32-bit arithmetic and with an 8-bit position, which wraps. */
  function Scan32(b: seq<Byte>, i: nat, bitpos: nat, result: nat): (r: Option<Decoded<nat>>)
    requires i <= |b| && result < MAX_32
    ensures r.Some? ==> i < r.value.used <= |b| && r.value.value < MAX_32
    decreases |b| - i
  {
    if i == |b| || (bitpos >= 32 && Refused(b[i], bitpos, result)) then None
    else
      var value := if bitpos >= 32 then result else Or(result, ShiftLeft(b[i] % 128, bitpos)) % MAX_32;
      var next := (bitpos + 7) % 256;
      if b[i] >= 128 then Scan32(b, i + 1, next, value)
      else if next == 35 && b[i] / 16 % 8 != 0 then None
      else Some(Decoded(value, i + 1))
  }

  function Decode32(b: seq<Byte>): (r: Option<Decoded<nat>>)
    ensures r.Some? ==> 0 < r.value.used <= |b| && r.value.value < MAX_32
  {
    if b == [] then None
    else if b[0] < 128 then Some(Decoded(b[0], 1))
    else Scan32(b, 1, 7, b[0] % 128)
  }

  /** The decoder's loop. */
  method DecodeVarint32(b: seq<Byte>) returns (r: Option<Decoded<nat>>)
    ensures r == Decode32(b)
  {
    hide Or, ShiftLeft, Refused;
    if b == [] {
      return None;
    }
    var byte := b[0];
    var result: nat, i: nat := byte % 128, 1;
    if byte < 128 {
      return Some(Decoded(byte, 1));
    }
    var bitpos: nat := 7;
    while byte >= 128
      invariant 1 <= i <= |b| && result < MAX_32 && byte == b[i - 1]
      invariant byte >= 128 ==> Decode32(b) == Scan32(b, i, bitpos, result)
      invariant byte < 128 ==>
                  Decode32(b) == if bitpos == 35 && byte / 16 % 8 != 0 then None else Some(Decoded(result, i))
      decreases |b| - i
    {
      if i == |b| {
        return None;
      }
      byte := b[i];
      if bitpos >= 32 {
        if Refused(byte, bitpos, result) {
          return None;
        }
      } else {
        result := Or(result, ShiftLeft(byte % 128, bitpos)) % MAX_32;
      }
      bitpos := (bitpos + 7) % 256;
      i := i + 1;
    }
    if bitpos == 35 && byte / 16 % 8 != 0 {
      return None;
    }
    r := Some(Decoded(result, i));
  }

  // ----- What the 32-bit decoder accepts -----

  predicate Extension(byte: Byte, i: nat, negative: bool) {
    byte % 128 == 0 || (negative && byte == if i < 9 then 0xFF else 0x01)
  }

  /** Exactly what the 32-bit decoder accepts of a varint of n bytes, as long as its position does not wrap.
      The high bits of the fifth byte are looked at only when it is the last. */
  predicate Accepts32(b: seq<Byte>, n: nat)
    requires n <= |b|
  {
    && (n == 5 ==> b[4] % 128 < 16)
    && (n > 5 ==> ExtendsFrom(b, 5, n))
  }

  predicate ExtendsFrom(b: seq<Byte>, i: nat, n: nat)
    requires 5 <= |b| && n <= |b|
  {
    forall j :: i <= j < n ==> Extension(b[j], j, Bits(b, 5) % MAX_32 >= 0x8000_0000)
  }

  /** The position of the thirty-eighth byte is 3 again. */
  const WRAP: nat := 37

  lemma {:induction false} OrAbove(x: nat, y: nat, k: nat)
    requires x < Pow(2, k)
    ensures Or(x, ShiftLeft(y, k)) == x + ShiftLeft(y, k)
  {
    if k == 0 {
      OrNothing(y);
      assert Pow(2, 0) == 1 && ShiftLeft(y, 0) == y;
    } else {
      var s, h := ShiftLeft(y, k), ShiftLeft(y, k - 1);
      assert s == 2 * h by {
        assert Pow(2, k) == 2 * Pow(2, k - 1);
        Regroup(y, Pow(2, k - 1));
      }
      OrAbove(x / 2, y, k - 1);
      OrHalves(x, h);
    }
  }

  lemma Regroup(y: nat, p: nat)
    ensures y * (2 * p) == 2 * (y * p)
  {
  }

  lemma OrHalves(x: nat, h: nat)
    ensures Or(x, 2 * h) == x % 2 + 2 * Or(x / 2, h)
  {
    if x == 0 && h == 0 {
      assert Or(0, 0) == 0;
    }
  }

  lemma {:induction false} OrNothing(y: nat)
    ensures Or(0, y) == y
  {
    if y > 0 {
      OrNothing(y / 2);
    }
  }

  /** Within the first five bytes, each adds its seven bits above the others. */
  lemma NextBits32(b: seq<Byte>, i: nat)
    requires 0 < i < |b| && i < 5
    ensures Or(Bits(b, i) % MAX_32, ShiftLeft(b[i] % 128, 7 * i)) % MAX_32 == Bits(b, i + 1) % MAX_32
  {
    hide Bits, Pow, ShiftLeft, Or;
    BitsRange(b, i);
    PowSeven(i);
    AtMostItself(Bits(b, i), MAX_32);
    OrAbove(Bits(b, i) % MAX_32, b[i] % 128, 7 * i);
    NextBits(b, i, Bits(b, i) % MAX_32, MAX_32);
  }

  lemma AtMostItself(a: nat, m: nat)
    requires m > 0
    ensures a % m <= a
  {
    if a >= m {
      assert a % m < m;
    }
  }

  function UpToFive(i: nat): nat {
    if i < 5 then i else 5
  }

  /** What a varint that has got as far as byte i still has to meet. */
  predicate GoesOn(b: seq<Byte>, i: nat, n: nat)
    requires n <= |b|
  {
    (n == 5 ==> b[4] % 128 < 16) && (n > 5 ==> ExtendsFrom(b, if i < 5 then 5 else i, n))
  }

  /** The turns up to the end of a varint, if the position does not wrap on the way. */
  lemma {:induction false} ScanIs(b: seq<Byte>, i: nat, n: nat)
    requires EndsAt(b, n) && 1 <= i < n <= WRAP
    ensures Scan32(b, i, 7 * i, Bits(b, UpToFive(i)) % MAX_32) ==
            if GoesOn(b, i, n) then Some(Decoded(Bits(b, UpToFive(n)) % MAX_32, n)) else None
    decreases n - i
  {
    hide Bits, Or, ShiftLeft, GoesOn, Refused;
    if i < 5 {
      NextBits32(b, i);
    }
    Passes(b, i, n);
    if i + 1 < n {
      ScanIs(b, i + 1, n);
    }
  }

  /** One byte of them. */
  lemma Passes(b: seq<Byte>, i: nat, n: nat)
    requires EndsAt(b, n) && 1 <= i < n <= WRAP
    ensures i < 5 && i + 1 < n ==> GoesOn(b, i, n) == GoesOn(b, i + 1, n)
    ensures i >= 5 && i + 1 < n ==>
              GoesOn(b, i, n) == (!Refused(b[i], 7 * i, Bits(b, 5) % MAX_32) && GoesOn(b, i + 1, n))
    ensures i >= 5 && i + 1 == n ==> GoesOn(b, i, n) == !Refused(b[i], 7 * i, Bits(b, 5) % MAX_32)
    ensures i < 5 && i + 1 == n ==> GoesOn(b, i, n) == (i == 4 ==> b[i] / 16 % 8 == 0)
  {
    hide Bits;
  }

  /** In closed form: a varint short enough for the position not to wrap is accepted exactly when what
      lies beyond the thirty-second bit is padding or sign, the high bits of a longer varint's fifth byte
      excepted; and its value is taken modulo 2^32. */
  lemma Decode32Is(b: seq<Byte>, n: nat)
    requires EndsAt(b, n) && n <= WRAP
    ensures Decode32(b) == if Accepts32(b, n) then Some(Decoded(Bits(b, n) % MAX_32, n)) else None
  {
    hide Bits, Scan32;
    FirstBits(b);
    if n > 1 {
      ScanIs(b, 1, n);
    }
    if n > 5 {
      HighBytesVanish(b, n);
    }
  }

  /** Whatever its length, what is accepted is one varint. */
  lemma {:induction false} ScanEnds(b: seq<Byte>, i: nat, bitpos: nat, result: nat)
    requires i <= |b| && result < MAX_32 && Scan32(b, i, bitpos, result).Some?
    requires forall j :: 0 <= j < i ==> b[j] >= 128
    ensures EndsAt(b, Scan32(b, i, bitpos, result).value.used)
    decreases |b| - i
  {
    hide Or, ShiftLeft, Refused;
    if b[i] >= 128 {
      var value := if bitpos >= 32 then result else Or(result, ShiftLeft(b[i] % 128, bitpos)) % MAX_32;
      ScanEnds(b, i + 1, (bitpos + 7) % 256, value);
    }
  }

  lemma AcceptedEnds(b: seq<Byte>)
    requires Decode32(b).Some?
    ensures EndsAt(b, Decode32(b).value.used)
  {
    hide Scan32;
    if b[0] >= 128 {
      ScanEnds(b, 1, 7, b[0] % 128);
    }
  }

  lemma {:induction false} HighBytesVanish(b: seq<Byte>, n: nat)
    requires 5 <= n <= |b|
    ensures Bits(b, n) % MAX_32 == Bits(b, 5) % MAX_32
  {
    if n > 5 {
      HighBytesVanish(b, n - 1);
      PowSum(5, n - 1 - 5);
      assert Pow(128, 5) == 8 * MAX_32;
      var q := b[n - 1] % 128 * (8 * Pow(128, n - 1 - 5));
      assert b[n - 1] % 128 * Pow(128, n - 1) == MAX_32 * q;
      ModuloShift(Bits(b, n - 1), q, MAX_32);
    }
  }

  lemma FirstBits(b: seq<Byte>)
    requires b != []
    ensures Bits(b, 1) == b[0] % 128
  {
    assert Bits(b, 1) == b[0] % 128 * Pow(128, 0);
  }

  /** Canonical encodings of unsigned 32-bit values are read back. */
  lemma Varint32RoundTrip(v: nat, rest: seq<Byte>)
    requires v < MAX_32
    ensures Decode32(Varint(v) + rest) == Some(Decoded(v, |Varint(v)|))
  {
    hide Varint, Bits, Pow, Decode32;
    var b := Varint(v) + rest;
    VarintRoundTrip(v, rest);
    FiveBytes(v);
    Decode32Is(b, |Varint(v)|);
    if |Varint(v)| == 5 {
      FifthByte(b);
    }
  }

  lemma FiveBytes(v: nat)
    requires v < MAX_32
    ensures |Varint(v)| <= 5
  {
    assert Pow(128, 5) > v;
    VarintLength(v, 5);
  }

  lemma FifthByte(b: seq<Byte>)
    requires |b| >= 5 && Bits(b, 5) < MAX_32
    ensures b[4] % 128 < 16
  {
    assert Pow(128, 4) == 0x1000_0000;
    assert Bits(b, 5) == Bits(b, 4) + b[4] % 128 * Pow(128, 4);
  }

  /** What the 32-bit decoder accepts, the 64-bit one accepts exactly when it has at most ten bytes; and
      then they agree modulo 2^32. */
  lemma DecodersAgree(b: seq<Byte>)
    requires Decode32(b).Some?
    ensures Decode64(b).Some? <==> Decode32(b).value.used <= 10
    ensures Decode64(b).Some? ==> Decode64(b).value.used == Decode32(b).value.used
    ensures Decode64(b).Some? ==> Decode64(b).value.value % MAX_32 == Decode32(b).value.value
  {
    hide Bits, Decode32;
    var n := Decode32(b).value.used;
    AcceptedEnds(b);
    if n <= 10 {
      EndIs(b, 0, 10, n);
      Decode32Is(b, n);
      NarrowedTwice(Bits(b, n));
    } else {
      NoEnd(b, 0, 10);
    }
  }

  lemma {:induction false} NoEnd(b: seq<Byte>, from: nat, limit: nat)
    requires forall i :: from <= i < limit && i < |b| ==> b[i] >= 128
    ensures End(b, from, limit) == None
    decreases limit - from
  {
    if from < limit && from < |b| {
      NoEnd(b, from + 1, limit);
    }
  }

  lemma NarrowedTwice(bits: nat)
    ensures bits % MAX_64 % MAX_32 == bits % MAX_32
  {
    var q := bits / MAX_64;
    assert bits == bits % MAX_64 + MAX_32 * (MAX_32 * q);
    ModuloShift(bits % MAX_64, MAX_32 * q, MAX_32);
  }

  /** Five bytes carry 35 bits; what is left follows them. */
  lemma FiveThenRest(v: nat)
    requires v >= 0x8_0000_0000
    ensures |Varint(v)| > 5 && Varint(v)[5..] == Varint(v / 0x8_0000_0000)
    ensures forall i :: 0 <= i < 5 ==> Varint(v)[i] >= 128
  {
    hide Varint;
    FiveTimes(v);
    assert Varint(v)[0..] == Varint(v);
    ByteThenRest(v, v, 0);
    ByteThenRest(v, v / 128, 1);
    ByteThenRest(v, v / 128 / 128, 2);
    ByteThenRest(v, v / 128 / 128 / 128, 3);
    ByteThenRest(v, v / 128 / 128 / 128 / 128, 4);
  }

  lemma ByteThenRest(v: nat, w: nat, j: nat)
    requires w >= 128 && j < |Varint(v)| && Varint(v)[j..] == Varint(w)
    ensures j + 1 < |Varint(v)| && Varint(v)[j] >= 128 && Varint(v)[j + 1..] == Varint(w / 128)
  {
    hide Varint;
    VarintStep(w);
    assert Varint(v)[j] == Varint(v)[j..][0] == w % 128 + 128;
    assert Varint(v)[j + 1..] == Varint(v)[j..][1..];
  }

  lemma FiveTimes(v: nat)
    ensures v / 128 / 128 / 128 / 128 / 128 == v / 0x8_0000_0000
  {
    assert v / 128 / 128 == v / 0x4000;
    assert v / 0x4000 / 128 == v / 0x20_0000;
    assert v / 0x20_0000 / 128 == v / 0x1000_0000;
  }

  lemma AllOnes()
    ensures Varint(0x1FFF_FFFF) == [255, 255, 255, 255, 1]
  {
    hide Varint;
    VarintStep(0x1FFF_FFFF);
    VarintStep(0x3F_FFFF);
    VarintStep(0x7FFF);
    VarintStep(0xFF);
    VarintStep(1);
  }

  /** A negative 32-bit value encoded as 64 bits is read back by the 32-bit decoder. */
  lemma SignExtendedRoundTrip(m: nat, rest: seq<Byte>)
    requires 0 < m <= 0x8000_0000
    ensures Decode32(Varint(MAX_64 - m) + rest) == Some(Decoded(MAX_32 - m, 10))
  {
    hide Varint, Bits, Decode32;
    var v := MAX_64 - m;
    var b := Varint(v) + rest;
    FiveThenRest(v);
    AllOnes();
    assert v / 0x8_0000_0000 == 0x1FFF_FFFF;
    assert forall i :: 5 <= i < 10 ==> b[i] == Varint(v)[5..][i - 5];
    VarintRoundTrip(v, rest);
    Decode32Is(b, 10);
    HighBytesVanish(b, 10);
    assert v % MAX_32 == MAX_32 - m;
  }

  // ----- What the 32-bit decoder loses -----

  /** Nothing but padding beyond the thirty-second bit. */
  predicate Padded(b: seq<Byte>, n: nat)
    requires n <= |b|
  {
    n <= 5 || (b[4] % 128 < 16 && forall i :: 5 <= i < n ==> b[i] % 128 == 0)
  }

  /** Every bit beyond the thirty-second set. */
  predicate SignExtended(b: seq<Byte>, n: nat)
    requires n <= |b|
  {
    n == 10 && b[4] % 128 / 16 == 7 && (forall i :: 5 <= i < 9 ==> b[i] == 0xFF) && b[9] == 0x01
  }

  lemma {:induction false} BitsSplit(b: seq<Byte>, m: nat, n: nat)
    requires m <= n <= |b|
    ensures Bits(b, n) == Bits(b, m) + Pow(128, m) * Bits(b[m..n], n - m)
    decreases n
  {
    if n > m {
      hide Pow;
      BitsSplit(b, m, n - 1);
      PowSum(m, n - 1 - m);
      BitsOfPrefix(b[m..n - 1], b[m..n], n - 1 - m);
      var c, low := b[n - 1] % 128, Bits(b[m..n - 1], n - 1 - m);
      assert b[m..n][n - 1 - m] == b[n - 1];
      Distribute(Pow(128, m), low, c, Pow(128, n - 1 - m));
    } else {
      assert b[m..n] == [];
    }
  }

  lemma Distribute(p: nat, low: nat, c: nat, q: nat)
    ensures p * (low + c * q) == p * low + c * (p * q)
  {
  }

  lemma {:induction false} BitsOfPrefix(a: seq<Byte>, b: seq<Byte>, n: nat)
    requires n <= |a| && n <= |b| && a[..n] == b[..n]
    ensures Bits(a, n) == Bits(b, n)
  {
    if n > 0 {
      assert a[..n][..n - 1] == a[..n - 1] && b[..n][..n - 1] == b[..n - 1];
      assert a[n - 1] == a[..n][n - 1] && b[n - 1] == b[..n][n - 1];
      BitsOfPrefix(a, b, n - 1);
    }
  }

  /** The largest value n bytes can carry, and what carries it; and the smallest. */
  lemma {:induction false} BitsRange(b: seq<Byte>, n: nat)
    requires n <= |b|
    ensures Bits(b, n) < Pow(128, n)
    ensures Bits(b, n) == Pow(128, n) - 1 <==> forall i :: 0 <= i < n ==> b[i] % 128 == 127
    ensures Bits(b, n) == 0 <==> forall i :: 0 <= i < n ==> b[i] % 128 == 0
  {
    if n > 0 {
      BitsRange(b, n - 1);
      OneDigit(Bits(b, n - 1), b[n - 1] % 128, Pow(128, n - 1));
    }
  }

  lemma OneDigit(low: nat, c: nat, p: nat)
    requires low < p && c < 128
    ensures low + c * p < 128 * p
    ensures low + c * p == 128 * p - 1 <==> low == p - 1 && c == 127
    ensures low + c * p == 0 <==> low == 0 && c == 0
  {
    if c < 127 {
      assert c * p <= 126 * p by { TimesOrder(c, 126, p); }
    }
    if c > 0 {
      TimesOrder(1, c, p);
    }
  }

  lemma TimesOrder(a: nat, b: nat, p: nat)
    requires a <= b
    ensures a * p <= b * p
  {
  }

  /** The bytes past the fifth of an accepted varint: how much they can carry, and when it is nothing
      or everything. */
  lemma HighBits(b: seq<Byte>, n: nat)
    requires 5 < n <= 10 && n <= |b| && EndsAt(b, n) && Accepts32(b, n)
    ensures var high := Bits(b[5..n], n - 5);
            && high < 0x2000_0000
            && (high == 0 <==> forall i :: 5 <= i < n ==> b[i] % 128 == 0)
            && (high == 0x1FFF_FFFF <==> n == 10 && (forall i :: 5 <= i < 9 ==> b[i] == 0xFF) && b[9] == 0x01)
  {
    hide Bits;
    var c := b[5..n];
    assert forall i :: 0 <= i < n - 5 ==> c[i] == b[i + 5];
    assert forall i :: 5 <= i < n ==> b[i] == c[i - 5];
    BitsRange(c, n - 5);
    FourSevens();
    if n < 10 {
      PowOrder(n - 5, 4);
    } else {
      BitsRange(c, 4);
      LastDigit(c, 4);
      assert b[9] % 128 == 0 || b[9] == 1;
    }
  }

  lemma FourSevens()
    ensures Pow(128, 4) == 0x1000_0000 && Pow(128, 5) == 0x8_0000_0000
  {
  }

  lemma LastDigit(b: seq<Byte>, n: nat)
    requires n < |b|
    ensures Bits(b, n + 1) == Bits(b, n) + b[n] % 128 * Pow(128, n)
  {
  }

  lemma {:induction false} PowOrder(m: nat, n: nat)
    requires m <= n
    ensures Pow(128, m) <= Pow(128, n)
  {
    if m < n {
      PowOrder(m, n - 1);
    }
  }

  /** A varint both decoders accept, in full. */
  lemma WholeValue(b: seq<Byte>, n: nat)
    requires 5 < n <= 10 && n <= |b| && EndsAt(b, n) && Accepts32(b, n)
    ensures var top, high := b[4] % 128 / 16, Bits(b[5..n], n - 5);
            && Bits(b, n) == Bits(b, n) % MAX_32 + MAX_32 * (top + 8 * high)
            && Bits(b, n) < MAX_64
  {
    hide Bits, Pow;
    HighBits(b, n);
    BitsSplit(b, 5, n);
    FourSevens();
    BitsRange(b, 4);
    LastDigit(b, 4);
    TopBits(Bits(b, 4), b[4] % 128, Bits(b[5..n], n - 5));
  }

  /** Four sevens of bits, seven more, and what is above them. */
  lemma TopBits(low: nat, five: nat, high: nat)
    requires low < 0x1000_0000 && five < 128 && high < 0x2000_0000
    ensures var all, top := low + five * 0x1000_0000 + 0x8_0000_0000 * high, five / 16;
            all == all % MAX_32 + MAX_32 * (top + 8 * high) && all < MAX_64
  {
    var lower := low + five % 16 * 0x1000_0000;
    assert low + five * 0x1000_0000 + 0x8_0000_0000 * high == lower + MAX_32 * (five / 16 + 8 * high);
    ModuloShift(lower, five / 16 + 8 * high, MAX_32);
  }

  lemma ShortValue(b: seq<Byte>, n: nat)
    requires n <= 5 && n <= |b| && (n == 5 ==> b[4] % 128 < 16)
    ensures Bits(b, n) < MAX_32
  {
    hide Bits, Pow;
    BitsRange(b, n);
    FourSevens();
    if n == 5 {
      BitsRange(b, 4);
      LastDigit(b, 4);
    } else {
      PowOrder(n, 4);
    }
  }

  /** What both decoders accept stands for the same number, zero- or sign-extended, exactly when nothing
      but padding or nothing but sign bits lies beyond the thirty-second bit. In every other varint the
      32-bit decoder drops value bits. */
  lemma NothingLostIff(b: seq<Byte>)
    requires Decode32(b).Some? && Decode64(b).Some?
    ensures var n, v, w := Decode32(b).value.used, Decode32(b).value.value, Decode64(b).value.value;
            && n <= |b|
            && (w == v <==> Padded(b, n))
            && (v >= 0x8000_0000 && w == v + (MAX_64 - MAX_32) <==> SignExtended(b, n))
  {
    hide Bits, Pow, Decode32;
    var n := Decode32(b).value.used;
    DecodersAgree(b);
    AcceptedEnds(b);
    EndIs(b, 0, 10, n);
    Decode32Is(b, n);
    if n <= 5 {
      ShortValue(b, n);
    } else {
      HighBits(b, n);
      WholeValue(b, n);
      HighBytesVanish(b, n);
    }
  }

  /** A varint of more than five bytes may carry value bits beyond the thirty-second in its fifth byte:
      the 32-bit decoder drops them without complaint. */
  lemma OversizeAccepted()
    ensures var b := [0x80, 0x80, 0x80, 0x80, 0xF0, 0x00];
            Decode32(b) == Some(Decoded(0, 6)) && Decode64(b) == Some(Decoded(7 * MAX_32, 6))
  {
    hide Decode32;
    var b: seq<Byte> := [0x80, 0x80, 0x80, 0x80, 0xF0, 0x00];
    EndIs(b, 0, 10, 6);
    Decode32Is(b, 6);
    assert Pow(128, 4) == 0x1000_0000;
    assert Bits(b, 4) == 0;
    assert Bits(b, 5) == 7 * MAX_32;
    assert Bits(b, 6) == 7 * MAX_32;
  }

  /** Once the 8-bit position wraps, padding is followed by value bits again: thirty-seven bytes of padding
      and a 1 decode to 8. */
  lemma PositionWraps(b: seq<Byte>)
    requires |b| == WRAP + 1 && (forall i :: 0 <= i < WRAP ==> b[i] == 0x80) && b[WRAP] == 1
    ensures Decode32(b) == Some(Decoded(8, WRAP + 1)) && Decode64(b) == None
  {
    PaddingGoesOn(b, 1);
    assert Scan32(b, WRAP, 3, 0) == Some(Decoded(Or(0, 8) % MAX_32, WRAP + 1)) by {
      assert Pow(2, 3) == 8;
    }
    OrNothing(8);
    DecodersAgree(b);
  }

  lemma {:induction false} PaddingGoesOn(b: seq<Byte>, i: nat)
    requires 1 <= i < WRAP < |b| && forall j :: 0 <= j < WRAP ==> b[j] == 0x80
    ensures Scan32(b, i, 7 * i, 0) == Scan32(b, WRAP, 3, 0)
    decreases WRAP - i
  {
    hide ShiftLeft;
    if i < 5 {
      NothingShifted(7 * i);
    }
    if i + 1 < WRAP {
      PaddingGoesOn(b, i + 1);
    }
  }

  lemma NothingShifted(k: nat)
    ensures Or(0, ShiftLeft(0, k)) == 0
  {
    assert ShiftLeft(0, k) == 0;
  }

  // ----- Zig-zag -----

  /** (uint64_t)v << 1, complemented for negative values, in 64-bit arithmetic. */
  function ZigZag(v: int): (r: nat)
    requires -0x8000_0000_0000_0000 <= v < 0x8000_0000_0000_0000
    ensures r < MAX_64
  {
    var shifted := v % MAX_64 * 2 % MAX_64;
    if v < 0 then MAX_64 - 1 - shifted else shifted
  }

  /** The shift, complemented for odd values, then read as a signed number. */
  function ZagZig(u: nat): (r: int)
    requires u < MAX_64
  {
    var half := u / 2;
    var bits := if u % 2 == 1 then MAX_64 - 1 - half else half;
    ToSigned(bits, MAX_64)
  }

  /** Two's complement. */
  function ToSigned(bits: nat, modulus: nat): int
    requires bits < modulus
  {
    if bits < modulus / 2 then bits else bits - modulus
  }

  lemma ZigZagIs(v: int)
    requires -0x8000_0000_0000_0000 <= v < 0x8000_0000_0000_0000
    ensures ZigZag(v) == if v < 0 then -2 * v - 1 else 2 * v
  {
    var q := if v < 0 then -1 else 0;
    var bits := v - MAX_64 * q;
    Remainder(v / MAX_64, v % MAX_64, q, bits, MAX_64);
    Remainder(bits * 2 / MAX_64, bits * 2 % MAX_64, -q, bits * 2 + MAX_64 * q, MAX_64);
  }

  lemma ZigZagRoundTrip(v: int)
    requires -0x8000_0000_0000_0000 <= v < 0x8000_0000_0000_0000
    ensures ZagZig(ZigZag(v)) == v
  {
    hide ZigZag;
    ZigZagIs(v);
  }

  /** And every 64-bit pattern is the zig-zag of exactly the value it decodes to. */
  lemma ZagZigRoundTrip(u: nat)
    requires u < MAX_64
    ensures -0x8000_0000_0000_0000 <= ZagZig(u) < 0x8000_0000_0000_0000 && ZigZag(ZagZig(u)) == u
  {
    hide ZigZag;
    ZigZagIs(ZagZig(u));
  }
}

/** Base 128 varints as the generated protobuf code reads and writes them
    (go-libp2p-kad-dht/pb/dht.pb.go: encodeVarintDht, sovDht and the reading loops). */
module Varints {
  import opened Options

  type Byte = x: int | 0 <= x < 256
  type Bytes = seq<Byte>

  const TWO32: nat := 0x1_0000_0000
  const TWO63: nat := 0x8000_0000_0000_0000
  const TWO64: nat := 0x1_0000_0000_0000_0000

  /** Seven bits per byte, lowest first; all bytes but the last have their top bit set. */
  function Encode(v: nat): (bs: Bytes)
    ensures bs != []
  {
    if v < 128 then [v] else [v % 128 + 128] + Encode(v / 128)
  }

  /** The number of bits of x, as bits.Len64 computes it. */
  function BitLen(x: nat): nat {
    if x == 0 then 0 else 1 + BitLen(x / 2)
  }

  /** `sovDht`: the size of a varint; x | 1 is the next odd number. */
  function Sov(x: nat): nat {
    (BitLen(if x % 2 == 0 then x + 1 else x) + 6) / 7
  }

  lemma BitLenBy128(x: nat)
    requires x >= 128
    ensures BitLen(x) == BitLen(x / 128) + 7
  {
    hide BitLen;
    BitLenBy4(x);
    BitLenBy4(x / 4);
    BitLenBy4(x / 16);
    BitLenBy2(x / 64);
  }

  lemma BitLenBy2(x: nat)
    requires x >= 1
    ensures BitLen(x) == BitLen(x / 2) + 1
  {
  }

  lemma BitLenBy4(x: nat)
    requires x >= 2
    ensures BitLen(x) == BitLen(x / 4) + 2
  {
    hide BitLen;
    BitLenBy2(x);
    BitLenBy2(x / 2);
  }

  lemma BitLenSmall(x: nat)
    requires 0 < x < 128
    ensures 1 <= BitLen(x) <= 7
  {
  }

  lemma BitLenOdd(x: nat)
    requires x > 0
    ensures BitLen(if x % 2 == 0 then x + 1 else x) == BitLen(x)
  {
  }

  /** Every varint takes exactly the size that was reserved for it. */
  lemma {:induction false} EncodeSize(v: nat)
    ensures |Encode(v)| == Sov(v) && Sov(v) > 0
  {
    if v < 128 {
      BitLenSmall(if v % 2 == 0 then v + 1 else v);
    } else {
      EncodeSize(v / 128);
      BitLenBy128(v);
      BitLenOdd(v);
      BitLenOdd(v / 128);
    }
  }

  /** A 64-bit number takes at most ten bytes. */
  lemma {:induction false} EncodeShort(v: nat, n: nat)
    requires v < Pow128(n) && n > 0
    ensures |Encode(v)| <= n
  {
    if v >= 128 {
      EncodeShort(v / 128, n - 1);
    }
  }

  function Pow128(n: nat): nat {
    if n == 0 then 1 else 128 * Pow128(n - 1)
  }

  lemma TenBytes(v: nat)
    requires v < TWO64
    ensures |Encode(v)| <= 10
  {
    assert Pow128(2) == 0x4000;
    assert Pow128(4) == 0x1000_0000;
    assert Pow128(6) == 0x400_0000_0000;
    assert Pow128(8) == 0x100_0000_0000_0000;
    assert Pow128(10) == 0x40_0000_0000_0000_0000;
    EncodeShort(v, 10);
  }

  /** Byte i holds the digit of weight 128^i, and its top bit says that more bytes follow. */
  lemma {:induction false} EncodeDigits(v: nat, i: nat)
    requires i < |Encode(v)|
    ensures Pow128(i) > 0 && Encode(v)[i] % 128 == v / Pow128(i) % 128
    ensures Encode(v)[i] >= 128 <==> i < |Encode(v)| - 1
  {
    if v >= 128 && i > 0 {
      EncodeDigits(v / 128, i - 1);
      assert Encode(v)[i] == Encode(v / 128)[i - 1];
      DivideTwice(v, 128, Pow128(i - 1));
    }
  }

  lemma DivideTwice(v: nat, a: nat, b: nat)
    requires a > 0 && b > 0
    ensures a * b > 0 && v / a / b == v / (a * b)
  {
    QuotientOfQuotient(v, a, b, v / a, v % a, v / a / b, v / a % b);
  }

  lemma QuotientOfQuotient(v: nat, a: nat, b: nat, q: nat, r: nat, q': nat, r': nat)
    requires v == a * q + r && r < a && q == b * q' + r' && r' < b
    ensures a * b > 0 && v / (a * b) == q'
  {
    Distributes(a, b, q', r');
    Below(a, b, r', r);
    QuotientUnique(v, q', a * r' + r, a * b);
  }

  lemma Distributes(a: nat, b: nat, q: nat, r: nat)
    ensures a * (b * q + r) == (a * b) * q + a * r
  {
  }

  lemma Below(a: nat, b: nat, r': nat, r: nat)
    requires r' < b && r < a
    ensures a * r' + r < a * b && a * b > 0
  {
    assert a * (r' + 1) <= a * b;
  }

  lemma QuotientUnique(v: nat, q: nat, r: nat, m: nat)
    requires m > 0 && v == m * q + r && r < m
    ensures v / m == q
  {
    RemainderUnique(v, q, r, m);
    assert v == m * (v / m) + v % m;
    assert m * (v / m) == m * q;
    SameFactor(m, v / m, q);
  }

  lemma SameFactor(m: nat, a: nat, b: nat)
    requires m > 0 && m * a == m * b
    ensures a == b
  {
  }

  // ---------------------------------------------------------------- reading

  /** A value and how many bytes it took. */
  datatype Reading<+T> = Reading(value: T, len: nat)

  /** The unbounded value of the varint at the front, if it ends within `limit` bytes. */
  function Digits(bs: Bytes, limit: nat): (r: Option<Reading<nat>>)
    ensures r.Some? ==> 0 < r.value.len <= |bs|
  {
    if limit == 0 || bs == [] then None
    else if bs[0] < 128 then Some(Reading(bs[0], 1))
    else
      match Digits(bs[1..], limit - 1)
      case None => None
      case Some(r) => Some(Reading(bs[0] - 128 + 128 * r.value, r.len + 1))
  }

  /** The sum of the first n bytes, seven bits each, byte i with weight 128^i. */
  ghost function DigitSum(bs: Bytes, n: nat): nat
    requires n <= |bs|
  {
    if n == 0 then 0 else DigitSum(bs, n - 1) + bs[n - 1] % 128 * Pow128(n - 1)
  }

  lemma {:induction false} DigitSumFirst(bs: Bytes, n: nat)
    requires 0 < n <= |bs|
    ensures DigitSum(bs, n) == bs[0] % 128 + 128 * DigitSum(bs[1..], n - 1)
  {
    if n > 1 {
      DigitSumFirst(bs, n - 1);
      assert bs[1..][n - 2] == bs[n - 1];
      Scaled(bs[n - 1] % 128, Pow128(n - 2));
    }
  }

  lemma Scaled(a: nat, b: nat)
    ensures a * (128 * b) == 128 * (a * b)
  {
  }

  /** A varint ends with the first byte below 128, which has to come within the limit; its value is the sum of
      its digits, also if it is longer than it needs to be. */
  lemma {:induction false} DigitsExactly(bs: Bytes, limit: nat)
    ensures match Digits(bs, limit)
            case None => forall i :: 0 <= i < limit && i < |bs| ==> bs[i] >= 128
            case Some(r) =>
              && 0 < r.len <= limit && bs[r.len - 1] < 128 && (forall i :: 0 <= i < r.len - 1 ==> bs[i] >= 128)
              && r.value == DigitSum(bs, r.len)
  {
    DigitsShape(bs, limit);
    if Digits(bs, limit).Some? {
      DigitsValue(bs, limit);
    }
  }

  lemma {:induction false} DigitsShape(bs: Bytes, limit: nat)
    ensures match Digits(bs, limit)
            case None => forall i :: 0 <= i < limit && i < |bs| ==> bs[i] >= 128
            case Some(r) => r.len <= limit && bs[r.len - 1] < 128 && forall i :: 0 <= i < r.len - 1 ==> bs[i] >= 128
  {
    if limit > 0 && bs != [] {
      DigitsShape(bs[1..], limit - 1);
      assert forall i :: 0 < i < |bs| ==> bs[i] == bs[1..][i - 1];
    }
  }

  lemma {:induction false} DigitsValue(bs: Bytes, limit: nat)
    requires Digits(bs, limit).Some?
    ensures Digits(bs, limit).value.value == DigitSum(bs, Digits(bs, limit).value.len)
  {
    DigitSumFirst(bs, Digits(bs, limit).value.len);
    if bs[0] >= 128 {
      DigitsValue(bs[1..], limit - 1);
    }
  }

  /** What the reading loop leaves in a variable of 32 or 64 bits: the value modulo 2^32 or 2^64. */
  function ReadVarint(bs: Bytes, modulus: nat): (r: Option<Reading<nat>>)
    requires modulus > 0
    ensures r.Some? ==> 0 < r.value.len <= |bs| && r.value.value < modulus
  {
    match Digits(bs, 10)
    case None => None
    case Some(r) => Some(Reading(r.value % modulus, r.len))
  }

  lemma {:induction false} DigitsOfEncode(v: nat, rest: Bytes, limit: nat)
    requires |Encode(v)| <= limit
    ensures Digits(Encode(v) + rest, limit) == Some(Reading(v, |Encode(v)|))
  {
    if v >= 128 {
      DigitsOfEncode(v / 128, rest, limit - 1);
      assert (Encode(v) + rest)[1..] == Encode(v / 128) + rest;
    }
  }

  /** Reading gives back what was written, whatever follows it. */
  lemma ReadOfEncode(v: nat, rest: Bytes, modulus: nat)
    requires v < TWO64 && modulus > 0
    ensures ReadVarint(Encode(v) + rest, modulus) == Some(Reading(v % modulus, |Encode(v)|))
  {
    TenBytes(v);
    DigitsOfEncode(v, rest, 10);
  }

  // --------------------------------------------------------- signed numbers

  /** Go's int32, and its conversions to and from uint64. */
  type Int32 = x: int | -0x8000_0000 <= x < 0x8000_0000

  function ToUint64(x: Int32): (u: nat)
    ensures u < TWO64
  {
    if x < 0 then x + TWO64 else x
  }

  function ToInt32(u: nat): Int32
    requires u < TWO32
  {
    if u < 0x8000_0000 then u else u - TWO32
  }

  /** The conversions keep the value modulo 2^64 and 2^32. */
  lemma ConversionsAreModular(x: Int32, u: nat)
    requires u < TWO32
    ensures (ToUint64(x) - x) % TWO64 == 0 && (ToInt32(u) - u) % TWO32 == 0
  {
  }

  lemma Int32RoundTrip(x: Int32)
    ensures ToInt32(ToUint64(x) % TWO32) == x
  {
  }

  // -------------------------------------------------------------- the loops

  function Pow2(n: nat): nat {
    if n == 0 then 1 else 2 * Pow2(n - 1)
  }

  lemma {:induction false} Pow2Positive(n: nat)
    ensures Pow2(n) > 0 && Pow2(n + 7) == 128 * Pow2(n)
  {
    if n > 0 {
      Pow2Positive(n - 1);
    } else {
      assert Pow2(7) == 2 * Pow2(6) == 4 * Pow2(5) == 8 * Pow2(4);
    }
  }

  lemma ModStep(acc: nat, d: nat, p: nat, q: nat, rest: nat, modulus: nat)
    requires modulus > 0 && q == 128 * p
    ensures ((acc + d * p) % modulus + q * rest) % modulus == (acc + p * (d + 128 * rest)) % modulus
  {
    var x := acc + d * p;
    assert p * (d + 128 * rest) == d * p + q * rest;
    assert x == x / modulus * modulus + x % modulus;
    ModShift(x % modulus + q * rest, x / modulus, modulus);
  }

  lemma TimesAtLeast(d: int, m: int)
    requires d >= 1 && m >= 0
    ensures d * m >= m
  {
  }

  lemma TimesAtMost(d: int, m: int)
    requires d <= -1 && m >= 0
    ensures d * m <= -m
  {
  }

  lemma RemainderUnique(a: int, q: int, r: int, m: int)
    requires a == q * m + r && 0 <= r < m
    ensures a % m == r
  {
    var d := a / m - q;
    assert d * m == r - a % m by {
      assert a == a / m * m + a % m;
      assert (a / m - q) * m == a / m * m - q * m;
    }
    if d >= 1 {
      TimesAtLeast(d, m);
    } else if d <= -1 {
      TimesAtMost(d, m);
    }
  }

  lemma ModShift(y: nat, k: nat, modulus: nat)
    requires modulus > 0
    ensures (y + k * modulus) % modulus == y % modulus
  {
    assert (y / modulus + k) * modulus == y / modulus * modulus + k * modulus;
    RemainderUnique(y + k * modulus, y / modulus + k, y % modulus, modulus);
  }

  /** Bitwise or. */
  function Or(a: nat, b: nat): nat {
    if a == 0 && b == 0 then 0
    else (if a % 2 == 1 || b % 2 == 1 then 1 else 0) + 2 * Or(a / 2, b / 2)
  }

  lemma {:induction false} OrZero(b: nat)
    ensures Or(0, b) == b
  {
    if b > 0 {
      OrZero(b / 2);
    }
  }

  /** Numbers without a common bit are added by or. */
  lemma {:induction false} OrDisjoint(a: nat, b: nat, k: nat)
    requires a < Pow2(k)
    ensures Or(a, b * Pow2(k)) == a + b * Pow2(k)
    decreases k
  {
    if k == 0 {
      OrZero(b);
    } else {
      var c := b * Pow2(k - 1);
      assert b * Pow2(k) == 2 * c;
      OrDisjoint(a / 2, b, k - 1);
    }
  }

  lemma {:induction false} Pow2Sum(m: nat, n: nat)
    ensures Pow2(m + n) == Pow2(m) * Pow2(n)
  {
    if n > 0 {
      Pow2Sum(m, n - 1);
      assert Pow2(m + n) == 2 * Pow2(m + n - 1) && Pow2(n) == 2 * Pow2(n - 1);
      hide Pow2;
      Double(Pow2(m), Pow2(n - 1));
    }
  }

  lemma Double(a: nat, b: nat)
    ensures a * (2 * b) == 2 * (a * b)
  {
  }

  /** A shifted digit, cut to `width` bits: a multiple of 2^shift that leaves room for lower bits. */
  lemma ShiftedDigit(d: nat, shift: nat, width: nat) returns (q: nat)
    ensures Pow2(width) > 0 && Pow2(shift) > 0 && (d * Pow2(shift)) % Pow2(width) == q * Pow2(shift)
    ensures q == 0 || (q + 1) * Pow2(shift) <= Pow2(width)
  {
    Pow2Positive(width);
    Pow2Positive(shift);
    hide Pow2;
    if shift >= width {
      Pow2Sum(width, shift - width);
      q := 0;
      MultipleOf(d, Pow2(width), Pow2(shift - width), Pow2(shift));
      RemainderUnique(d * Pow2(shift), d * Pow2(shift - width), 0, Pow2(width));
    } else {
      Pow2Sum(shift, width - shift);
      Pow2Positive(width - shift);
      q := d % Pow2(width - shift);
      CutMultiple(d, Pow2(shift), Pow2(width - shift), Pow2(width));
    }
  }

  lemma MultipleOf(d: nat, m: nat, n: nat, p: nat)
    requires p == m * n
    ensures d * p == d * n * m
  {
  }

  lemma CutMultiple(d: nat, p: nat, n: nat, m: nat)
    requires n > 0 && p > 0 && m == p * n
    ensures m > 0 && (d * p) % m == d % n * p && (d % n + 1) * p <= m
  {
    var q, r := d / n, d % n;
    assert d == q * n + r;
    assert d * p == q * m + r * p by { MultipleOf(q, n, p, m); }
    assert (r + 1) * p <= n * p by { TimesMonotone(r + 1, n, p); }
    assert (r + 1) * p == r * p + p;
    RemainderUnique(d * p, q, r * p, m);
  }

  lemma TimesMonotone(a: nat, b: nat, p: nat)
    requires a <= b
    ensures a * p <= b * p
  {
  }

  /** So or-ing the shifted digit in is adding it, in the arithmetic of `width` bits. */
  lemma OrAdds(value: nat, d: nat, shift: nat, width: nat)
    requires value < Pow2(shift) && value < Pow2(width) && d < 128
    ensures Pow2(width) > 0
    ensures var v := Or(value, (d * Pow2(shift)) % Pow2(width));
            v == (value + d * Pow2(shift)) % Pow2(width) && v < Pow2(width) && v < Pow2(shift + 7)
  {
    hide Pow2, Or;
    var q := ShiftedDigit(d, shift, width);
    Pow2Positive(shift);
    OrDisjoint(value, q, shift);
    AddCut(value, d, q, Pow2(shift), Pow2(width));
  }

  lemma AddCut(value: nat, d: nat, q: nat, p: nat, m: nat)
    requires value < p && value < m && d < 128 && (d * p) % m == q * p && (q == 0 || (q + 1) * p <= m)
    ensures value + q * p == (value + d * p) % m && value + q * p < m && value + q * p < 128 * p
  {
    OneMoreTime(q, p);
    AddBelow(value, d * p, q * p, m);
    TimesMonotone(d, 127, p);
    RemainderBelow(d * p, m);
  }

  lemma OneMoreTime(q: nat, p: nat)
    ensures (q + 1) * p == q * p + p
  {
  }

  lemma AddBelow(value: nat, x: nat, y: nat, m: nat)
    requires m > 0 && x % m == y && value + y < m
    ensures (value + x) % m == value + y
  {
    RemainderUnique(value + x, x / m, value + y, m);
  }

  lemma RemainderBelow(a: nat, m: nat)
    requires m > 0
    ensures a % m <= a
  {
  }

  lemma Widths()
    ensures Pow2(32) == TWO32 && Pow2(64) == TWO64
  {
    hide Pow2;
    FourBits();
    Pow2Sum(4, 4);
    Pow2Sum(8, 8);
    Pow2Sum(16, 16);
    Pow2Sum(32, 32);
  }

  lemma FourBits()
    ensures Pow2(4) == 16
  {
  }

  /** The loop that reads a varint into a variable of 32 or 64 bits. */
  method ReadLoop(data: Bytes, start: nat, modulus: nat) returns (ok: bool, value: nat, index: nat)
    requires start <= |data| && (modulus == TWO32 || modulus == TWO64)
    ensures ok <==> ReadVarint(data[start..], modulus).Some?
    ensures ok ==> start < index <= |data| && ReadVarint(data[start..], modulus) == Some(Reading(value, index - start))
  {
    hide Pow2, Or;
    value, index := 0, start;
    var shift := 0;
    Widths();
    ghost var width := if modulus == TWO32 then 32 else 64;
    assert Pow2(0) == 1 by { Pow2Zero(); }
    ghost var n := 0;
    while true
      invariant n <= 10 && shift == 7 * n && index == start + n <= |data|
      invariant value < Pow2(shift) && value < modulus == Pow2(width)
      invariant Remains(data[start..], n, value, Pow2(shift), modulus)
      decreases 10 - n
    {
      if shift >= 64 {
        return false, 0, 0;
      }
      if index >= |data| {
        return false, 0, 0;
      }
      var b := data[index];
      Pow2Positive(shift);
      RemainsNext(data[start..], n, value, Pow2(shift), modulus);
      index := index + 1;
      OrAdds(value, b % 128, shift, width);
      value := Or(value, (b % 128 * Pow2(shift)) % modulus);
      n := n + 1;
      shift := shift + 7;
      if b < 128 {
        return true, value, index;
      }
    }
  }

  lemma Pow2Zero()
    ensures Pow2(0) == 1
  {
  }

  /** After n bytes: what is read so far and what is still to be read make up the whole. */
  ghost predicate Remains(bs: Bytes, n: nat, value: nat, p: nat, modulus: nat)
    requires modulus > 0
  {
    && n <= |bs| && n <= 10
    && var rest := Digits(bs[n..], 10 - n);
       if rest.None? then Digits(bs, 10).None?
       else && Digits(bs, 10).Some? && Digits(bs, 10).value.len == rest.value.len + n
            && Digits(bs, 10).value.value % modulus == (value + p * rest.value.value) % modulus
  }

  lemma RemainsNext(bs: Bytes, n: nat, value: nat, p: nat, modulus: nat)
    requires modulus > 0 && Remains(bs, n, value, p, modulus) && n < 10 && n < |bs|
    ensures var d := bs[n] % 128;
            if bs[n] < 128 then ReadVarint(bs, modulus) == Some(Reading((value + d * p) % modulus, n + 1))
            else Remains(bs, n + 1, (value + d * p) % modulus, 128 * p, modulus)
  {
    hide Remains, ReadVarint;
    if bs[n] < 128 {
      RemainsLast(bs, n, value, p, modulus);
    } else {
      RemainsMore(bs, n, value, p, modulus);
    }
  }

  lemma RemainsLast(bs: Bytes, n: nat, value: nat, p: nat, modulus: nat)
    requires modulus > 0 && Remains(bs, n, value, p, modulus) && n < 10 && n < |bs| && bs[n] < 128
    ensures ReadVarint(bs, modulus) == Some(Reading((value + bs[n] * p) % modulus, n + 1))
  {
    hide Digits;
    DigitsStep(bs[n..], 10 - n);
    Commutes(p, bs[n]);
  }

  lemma Commutes(p: int, d: int)
    ensures p * d == d * p
  {
  }

  lemma RemainsMore(bs: Bytes, n: nat, value: nat, p: nat, modulus: nat)
    requires modulus > 0 && Remains(bs, n, value, p, modulus) && n < 10 && n < |bs| && bs[n] >= 128
    ensures Remains(bs, n + 1, (value + (bs[n] - 128) * p) % modulus, 128 * p, modulus)
  {
    hide Digits;
    DigitsStep(bs[n..], 10 - n);
    assert bs[n..][1..] == bs[n + 1..];
    if Digits(bs[n + 1..], 9 - n).Some? {
      var rest := Digits(bs[n + 1..], 9 - n).value.value;
      ModStep(value, bs[n] - 128, p, 128 * p, rest, modulus);
    }
  }

  lemma DigitsStep(bs: Bytes, limit: nat)
    requires limit > 0 && bs != []
    ensures if bs[0] < 128 then Digits(bs, limit) == Some(Reading(bs[0], 1))
            else var r := Digits(bs[1..], limit - 1);
                 Digits(bs, limit)
                 == if r.None? then None else Some(Reading(bs[0] - 128 + 128 * r.value.value, r.value.len + 1))
  {
  }

  /** Writes a varint so that it ends at `offset`, as the code does: it moves back by the size of the
      number and then writes forward. */
  method EncodeVarint(a: array<Byte>, offset: nat, v: nat) returns (base: nat)
    requires Sov(v) <= offset <= a.Length
    modifies a
    ensures base == offset - Sov(v)
    ensures a[base..offset] == Encode(v) && a[offset..] == old(a[offset..]) && a[..base] == old(a[..base])
  {
    hide Encode, Sov;
    EncodeSize(v);
    base := offset - Sov(v);
    var i, w := base, v;
    while w >= 128
      invariant base <= i && i + |Encode(w)| == offset
      invariant a[base..i] + Encode(w) == Encode(v)
      invariant a[offset..] == old(a[offset..]) && a[..base] == old(a[..base])
    {
      EncodeStep(w);
      ghost var before := a[base..i];
      a[i] := w % 128 + 128;
      assert a[base..i + 1] == before + [w % 128 + 128];
      w := w / 128;
      i := i + 1;
    }
    EncodeStep(w);
    ghost var before := a[base..i];
    a[i] := w;
    assert a[base..offset] == before + [w];
  }

  lemma EncodeStep(v: nat)
    ensures Encode(v) == if v < 128 then [v] else [v % 128 + 128] + Encode(v / 128)
  {
  }

  /** Copies `data` into the buffer so that it ends at `end`. */
  method WriteBytes(a: array<Byte>, end: nat, data: Bytes) returns (i: nat)
    requires |data| <= end <= a.Length
    modifies a
    ensures i == end - |data| && a[i..end] == data && a[end..] == old(a[end..]) && a[..i] == old(a[..i])
  {
    i := end - |data|;
    forall k | 0 <= k < |data| {
      a[i + k] := data[k];
    }
  }
}

/** Bitmasks and their one-bit slices (go-libp2p-blossomsub/pubsub.go, SliceBitmask). */
module Bitmasks {
  import opened SeqFacts

  type Bitmask = seq<bv8>

  predicate IsZero(mask: Bitmask) {
    forall i :: 0 <= i < |mask| ==> mask[i] == 0
  }

  /** The mask of n bytes that is `b` at byte i and zero elsewhere. */
  function Place(n: nat, i: nat, b: bv8): (m: Bitmask)
    ensures |m| == n
  {
    seq(n, k => if k == i then b else 0)
  }

  function Bit(b: bv8, m: bv8): seq<bv8> {
    if b & m != 0 then [m] else []
  }

  /** The mask of bit j. */
  function BitAt(j: nat): (m: bv8)
    requires j < 8
    ensures SingleBit(m)
  {
    if j == 0 then 0x01 else if j == 1 then 0x02 else if j == 2 then 0x04 else if j == 3 then 0x08
    else if j == 4 then 0x10 else if j == 5 then 0x20 else if j == 6 then 0x40 else 0x80
  }

  /** The set bits of a byte at position j and above, highest first. */
  function BitsDownTo(b: bv8, j: nat): (bits: seq<bv8>)
    requires j <= 8
    decreases b, 8 - j
  {
    if j == 8 then [] else BitsDownTo(b, j + 1) + Bit(b, BitAt(j))
  }

  function PlaceAll(n: nat, i: nat, bits: seq<bv8>): (ms: seq<Bitmask>)
    ensures |ms| == |bits|
    ensures forall k :: 0 <= k < |bits| ==> ms[k] == Place(n, i, bits[k])
  {
    seq(|bits|, k requires 0 <= k < |bits| => Place(n, i, bits[k]))
  }

  /** The one-bit slices of the first `i` bytes of the mask. */
  function SlicesUpTo(mask: Bitmask, i: nat): (ms: seq<Bitmask>)
    requires i <= |mask|
  {
    if i == 0 then [] else SlicesUpTo(mask, i - 1) + PlaceAll(|mask|, i - 1, BitsDownTo(mask[i - 1], 0))
  }

  function Slices(mask: Bitmask): (ms: seq<Bitmask>) {
    if IsZero(mask) then [mask] else SlicesUpTo(mask, |mask|)
  }

  // ------------------------------------------------------------- one byte

  predicate SingleBit(b: bv8) {
    b == 0x80 || b == 0x40 || b == 0x20 || b == 0x10 || b == 0x08 || b == 0x04 || b == 0x02 || b == 0x01
  }

  function OrBytes(bs: seq<bv8>): bv8 {
    if bs == [] then 0 else OrBytes(bs[..|bs| - 1]) | bs[|bs| - 1]
  }

  lemma {:induction false} OrConcat(s: seq<bv8>, t: seq<bv8>)
    ensures OrBytes(s + t) == OrBytes(s) | OrBytes(t)
  {
    if t == [] {
      assert s + t == s;
    } else {
      OrConcat(s, t[..|t| - 1]);
      assert (s + t)[..|s + t| - 1] == s + t[..|t| - 1];
    }
  }

  /** The bits at position j and above. */
  function HighMask(j: nat): bv8
    requires j <= 8
  {
    if j == 0 then 0xFF else if j == 1 then 0xFE else if j == 2 then 0xFC else if j == 3 then 0xF8
    else if j == 4 then 0xF0 else if j == 5 then 0xE0 else if j == 6 then 0xC0 else if j == 7 then 0x80 else 0x00
  }

  lemma HighMaskStep(b: bv8, j: nat)
    requires j < 8
    ensures (b & HighMask(j + 1)) | (b & BitAt(j)) == b & HighMask(j)
  {
  }

  lemma OrBit(b: bv8, m: bv8)
    requires SingleBit(m)
    ensures OrBytes(Bit(b, m)) == b & m
  {
    assert [m][..0] == [];
  }

  lemma {:induction false} BitsDownToOr(b: bv8, j: nat)
    requires j <= 8
    ensures OrBytes(BitsDownTo(b, j)) == b & HighMask(j)
    decreases 8 - j
  {
    if j < 8 {
      BitsDownToOr(b, j + 1);
      OrConcat(BitsDownTo(b, j + 1), Bit(b, BitAt(j)));
      OrBit(b, BitAt(j));
      HighMaskStep(b, j);
    }
  }

  lemma BitsOr(b: bv8)
    ensures OrBytes(BitsDownTo(b, 0)) == b
  {
    BitsDownToOr(b, 0);
  }

  /** Descending masks: the order of `Bits` makes distinctness immediate. */
  ghost predicate Descending(bs: seq<bv8>) {
    && (forall i :: 0 <= i < |bs| ==> SingleBit(bs[i]))
    && (forall i, j :: 0 <= i < j < |bs| ==> bs[i] > bs[j])
  }

  lemma DescendingSnoc(bs: seq<bv8>, b: bv8, m: bv8)
    requires Descending(bs) && SingleBit(m) && forall i :: 0 <= i < |bs| ==> bs[i] > m
    ensures Descending(bs + Bit(b, m))
    ensures forall i :: 0 <= i < |bs + Bit(b, m)| ==> (bs + Bit(b, m))[i] >= m
  {
  }

  lemma {:induction false} BitsDescend(b: bv8, j: nat)
    requires j <= 8
    ensures Descending(BitsDownTo(b, j))
    ensures j < 8 ==> forall i :: 0 <= i < |BitsDownTo(b, j)| ==> BitsDownTo(b, j)[i] >= BitAt(j)
    decreases 8 - j
  {
    if j < 8 {
      BitsDescend(b, j + 1);
      DescendingSnoc(BitsDownTo(b, j + 1), b, BitAt(j));
    }
  }

  /** The fast path of the code, b & (b - 1) == 0, finds the same slices as the bit loop. */
  lemma FastPath(b: bv8)
    requires b != 0 && b & (b - 1) == 0
    ensures SingleBit(b) && BitsDownTo(b, 0) == [b]
  {
    PowerOfTwo(b);
    SingleBitBits(b, 0);
  }

  lemma PowerOfTwo(b: bv8)
    requires b != 0 && b & (b - 1) == 0
    ensures SingleBit(b)
  {
  }

  lemma {:induction false} SingleBitBits(b: bv8, j: nat)
    requires SingleBit(b) && j <= 8
    ensures BitsDownTo(b, j) == if j < 8 && b >= BitAt(j) then [b] else []
    decreases 8 - j
  {
    if j < 8 {
      SingleBitBits(b, j + 1);
      OneMask(b, BitAt(j));
    }
  }

  lemma {:induction false} NoBits(j: nat)
    requires j <= 8
    ensures BitsDownTo(0, j) == []
    decreases 8 - j
  {
    if j < 8 {
      NoBits(j + 1);
    }
  }

  lemma OneMask(b: bv8, m: bv8)
    requires SingleBit(b) && SingleBit(m)
    ensures b & m != 0 <==> m == b
  {
  }

  // ------------------------------------------------------------ whole masks

  ghost predicate OneBitMask(m: Bitmask) {
    exists i :: 0 <= i < |m| && SingleBit(m[i]) && m == Place(|m|, i, m[i])
  }

  ghost predicate AllOfLength(ms: seq<Bitmask>, n: nat) {
    forall j :: 0 <= j < |ms| ==> |ms[j]| == n
  }

  /** The OR of byte k of every mask of the list. */
  ghost function OrAt(ms: seq<Bitmask>, k: nat): bv8 {
    if ms == [] then 0
    else
      var m := ms[|ms| - 1];
      OrAt(ms[..|ms| - 1], k) | if k < |m| then m[k] else 0
  }

  lemma OrAssoc(a: bv8, b: bv8, c: bv8)
    ensures (a | b) | c == a | (b | c)
  {
  }

  lemma {:induction false} OrAtConcat(s: seq<Bitmask>, t: seq<Bitmask>, k: nat)
    ensures OrAt(s + t, k) == OrAt(s, k) | OrAt(t, k)
  {
    if t == [] {
      assert s + t == s;
    } else {
      OrAtConcat(s, t[..|t| - 1], k);
      assert (s + t)[..|s + t| - 1] == s + t[..|t| - 1] && (s + t)[|s + t| - 1] == t[|t| - 1];
      OrAssoc(OrAt(s, k), OrAt(t[..|t| - 1], k), if k < |t[|t| - 1]| then t[|t| - 1][k] else 0);
    }
  }

  lemma {:induction false} OrAtPlaced(n: nat, i: nat, bits: seq<bv8>, k: nat)
    requires i < n && k < n
    ensures OrAt(PlaceAll(n, i, bits), k) == if k == i then OrBytes(bits) else 0
  {
    if bits != [] {
      var init := bits[..|bits| - 1];
      OrAtPlaced(n, i, init, k);
      assert PlaceAll(n, i, bits)[..|bits| - 1] == PlaceAll(n, i, init);
    }
  }

  lemma {:induction false} SlicesOr(mask: Bitmask, i: nat, k: nat)
    requires i <= |mask| && k < |mask|
    ensures OrAt(SlicesUpTo(mask, i), k) == if k < i then mask[k] else 0
  {
    hide BitsDownTo, PlaceAll, OrBytes, OrAt;
    if i == 0 {
      OrAtNothing(k);
    } else {
      SlicesOr(mask, i - 1, k);
      OrAtConcat(SlicesUpTo(mask, i - 1), PlaceAll(|mask|, i - 1, BitsDownTo(mask[i - 1], 0)), k);
      OrAtPlaced(|mask|, i - 1, BitsDownTo(mask[i - 1], 0), k);
      BitsOr(mask[i - 1]);
    }
  }

  lemma OrAtNothing(k: nat)
    ensures OrAt([], k) == 0
  {
  }

  /** Distinct one-bit masks of n bytes that are zero from byte i on. */
  ghost predicate DistinctBelow(ms: seq<Bitmask>, n: nat, i: nat) {
    && NoDup(ms)
    && forall j :: 0 <= j < |ms| ==> |ms[j]| == n && OneBitMask(ms[j]) && forall k :: i <= k < n ==> ms[j][k] == 0
  }

  lemma {:induction false} SlicesDistinct(mask: Bitmask, i: nat)
    requires i <= |mask|
    ensures DistinctBelow(SlicesUpTo(mask, i), |mask|, i)
  {
    hide BitsDownTo;
    if i > 0 {
      SlicesDistinct(mask, i - 1);
      BitsDescend(mask[i - 1], 0);
      AppendDistinct(SlicesUpTo(mask, i - 1), |mask|, i - 1, BitsDownTo(mask[i - 1], 0));
    }
  }

  lemma AppendDistinct(before: seq<Bitmask>, n: nat, i: nat, bits: seq<bv8>)
    requires i < n && Descending(bits) && DistinctBelow(before, n, i)
    ensures DistinctBelow(before + PlaceAll(n, i, bits), n, i + 1)
  {
    var added := PlaceAll(n, i, bits);
    forall j | 0 <= j < |added| ensures added[j][i] != 0 && OneBitMask(added[j]) {
      assert added[j][i] == bits[j];
      assert added[j] == Place(n, i, added[j][i]);
    }
    forall j, j' | 0 <= j < j' < |added| ensures added[j] != added[j'] {
      assert added[j][i] == bits[j] && added[j'][i] == bits[j'];
    }
    forall j, j' | 0 <= j < |before| && 0 <= j' < |added| ensures before[j] != added[j'] {
      assert before[j][i] == 0;
    }
  }

  /** Slicing a non-zero mask gives distinct one-bit masks of the same length, at least one, whose
      bytewise OR is the mask; the zero mask is its own only slice. */
  lemma SlicesSound(mask: Bitmask)
    ensures Slices(mask) != [] && NoDup(Slices(mask)) && AllOfLength(Slices(mask), |mask|)
    ensures !IsZero(mask) ==> forall s :: s in Slices(mask) ==> OneBitMask(s)
    ensures forall k :: 0 <= k < |mask| ==> OrAt(Slices(mask), k) == mask[k]
  {
    if IsZero(mask) {
      forall k | 0 <= k < |mask| ensures OrAt([mask], k) == mask[k] {
        assert [mask][..0] == [];
      }
    } else {
      SlicesDistinct(mask, |mask|);
      forall k | 0 <= k < |mask| ensures OrAt(Slices(mask), k) == mask[k] {
        SlicesOr(mask, |mask|, k);
      }
      var k :| 0 <= k < |mask| && mask[k] != 0;
      assert OrAt(Slices(mask), k) != 0;
    }
  }

  /** The bit of m comes before that of m': in an earlier byte, or higher in the same byte. */
  ghost predicate Before(m: Bitmask, m': Bitmask) {
    exists a, b :: 0 <= a <= b && a < |m| && b < |m'| && m[a] != 0 && m'[b] != 0 && (a == b ==> m[a] > m'[b])
  }

  /** One-bit masks in the order of their bits, below byte i. */
  ghost predicate OrderedBelow(ms: seq<Bitmask>, i: nat) {
    && (forall j, k :: 0 <= j < k < |ms| ==> Before(ms[j], ms[k]))
    && forall j :: 0 <= j < |ms| ==> BitBelow(ms[j], i)
  }

  ghost predicate BitBelow(m: Bitmask, i: nat) {
    exists a :: 0 <= a < i && a < |m| && m[a] != 0
  }

  lemma AppendOrdered(before: seq<Bitmask>, n: nat, i: nat, bits: seq<bv8>)
    requires i < n && Descending(bits) && OrderedBelow(before, i)
    ensures OrderedBelow(before + PlaceAll(n, i, bits), i + 1)
  {
    var added := PlaceAll(n, i, bits);
    var all := before + added;
    forall j | 0 <= j < |added| ensures added[j][i] == bits[j] != 0 {
    }
    forall j, k | 0 <= j < k < |all| ensures Before(all[j], all[k]) {
      if k >= |before| {
        assert all[k] == added[k - |before|];
        if j < |before| {
          var a :| 0 <= a < i && a < |before[j]| && before[j][a] != 0;
          assert all[j][a] != 0 && all[k][i] != 0;
        } else {
          assert all[j] == added[j - |before|];
          assert all[j][i] > all[k][i];
        }
      }
    }
    forall j | 0 <= j < |all| ensures BitBelow(all[j], i + 1) {
      if j >= |before| {
        assert all[j][i] != 0;
      } else {
        assert all[j] == before[j] && BitBelow(before[j], i);
      }
    }
  }

  lemma {:induction false} SlicesUpToOrdered(mask: Bitmask, i: nat)
    requires i <= |mask|
    ensures OrderedBelow(SlicesUpTo(mask, i), i)
  {
    hide BitsDownTo, Before;
    if i > 0 {
      SlicesUpToOrdered(mask, i - 1);
      BitsDescend(mask[i - 1], 0);
      AppendOrdered(SlicesUpTo(mask, i - 1), |mask|, i - 1, BitsDownTo(mask[i - 1], 0));
    }
  }

  /** The slices come in the order of their bits, from the first byte on and from the highest bit down. */
  lemma SlicesOrdered(mask: Bitmask, j: nat, k: nat)
    requires j < k < |Slices(mask)|
    ensures Before(Slices(mask)[j], Slices(mask)[k])
  {
    hide SlicesUpTo;
    SlicesUpToOrdered(mask, |mask|);
  }

  lemma {:induction false} SlicesOfPlaced(m: Bitmask, i: nat, k: nat)
    requires i < |m| && k <= |m| && SingleBit(m[i]) && m == Place(|m|, i, m[i])
    ensures SlicesUpTo(m, k) == if k <= i then [] else [m]
  {
    hide BitsDownTo, Place, PlaceAll;
    if k > 0 {
      SlicesOfPlaced(m, i, k - 1);
      PlacedByte(|m|, i, m[i], k - 1);
      assert SlicesUpTo(m, k) == SlicesUpTo(m, k - 1) + if k - 1 == i then [m] else [];
    }
  }

  lemma PlacedByte(n: nat, i: nat, b: bv8, k: nat)
    requires i < n && k < n && SingleBit(b)
    ensures PlaceAll(n, k, BitsDownTo(Place(n, i, b)[k], 0)) == if k == i then [Place(n, i, b)] else []
  {
    if k == i {
      SingleBitBits(b, 0);
    } else {
      NoBits(0);
    }
  }

  /** Slicing a slice gives back the slice. */
  lemma SliceOfSlice(mask: Bitmask, s: Bitmask)
    requires s in Slices(mask)
    ensures Slices(s) == [s]
  {
    hide SlicesUpTo, Place;
    if !IsZero(mask) {
      SlicesDistinct(mask, |mask|);
      var i :| 0 <= i < |s| && SingleBit(s[i]) && s == Place(|s|, i, s[i]);
      SlicesOfPlaced(s, i, |s|);
    }
  }

  // ---------------------------------------------------------------- the code

  lemma ShiftedBit(b: bv8, j: nat)
    requires j < 8
    ensures (1 as bv8) << j == BitAt(j)
    ensures (b >> j) & 1 == 1 <==> b & BitAt(j) != 0
  {
    if
    case j == 0 =>
    case j == 1 =>
    case j == 2 =>
    case j == 3 =>
    case j == 4 =>
    case j == 5 =>
    case j == 6 =>
    case j == 7 =>
  }

  method SliceBitmask(bitmask: Bitmask) returns (sliced: seq<Bitmask>)
    ensures sliced == Slices(bitmask)
  {
    if IsZero(bitmask) {
      return [bitmask];
    }
    sliced := [];
    for i := 0 to |bitmask|
      invariant sliced == SlicesUpTo(bitmask, i)
    {
      var b := bitmask[i];
      if b != 0 && b & (b - 1) == 0 {
        FastPath(b);
        assert PlaceAll(|bitmask|, i, [b]) == [Place(|bitmask|, i, b)];
        sliced := sliced + [Place(|bitmask|, i, b)];
      } else if b != 0 {
        var slow := SliceByte(|bitmask|, i, b);
        sliced := sliced + slow;
      } else {
        NoBits(0);
      }
    }
  }

  lemma SliceNoBit(n: nat, i: nat, b: bv8)
    ensures PlaceAll(n, i, BitsDownTo(b, 8)) == []
  {
  }

  lemma SliceBit(n: nat, i: nat, b: bv8, j: nat)
    requires j < 8
    ensures PlaceAll(n, i, BitsDownTo(b, j))
            == PlaceAll(n, i, BitsDownTo(b, j + 1)) + if b & BitAt(j) != 0 then [Place(n, i, BitAt(j))] else []
  {
    hide Place, BitAt;
    var bits := BitsDownTo(b, j + 1);
    assert BitsDownTo(b, j) == bits + Bit(b, BitAt(j));
  }

  /** The inner loop, from bit 7 down to bit 0. */
  method SliceByte(n: nat, i: nat, b: bv8) returns (sliced: seq<Bitmask>)
    requires i < n
    ensures sliced == PlaceAll(n, i, BitsDownTo(b, 0))
  {
    hide PlaceAll, BitsDownTo, BitAt, Place;
    sliced := [];
    var j := 8;
    SliceNoBit(n, i, b);
    while j > 0
      invariant 0 <= j <= 8
      invariant sliced == PlaceAll(n, i, BitsDownTo(b, j))
    {
      j := j - 1;
      ShiftedBit(b, j);
      SliceBit(n, i, b, j);
      if (b >> j) & 1 == 1 {
        sliced := sliced + [Place(n, i, 1 << j)];
      }
    }
  }
}

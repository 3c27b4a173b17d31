/** The wire format of protobuf said apart from its reader and writer: whole trees of fields are skipped, malformed
    ones are refused, and some values are given byte by byte (go-libp2p-kad-dht/pb/dht.pb.go). */
module WireFormat {
  import opened Options
  import opened Varints
  import opened DhtCodec

  // ------------------------------------------------------------ unknown fields

  /** A field with its number: a varint, a fixed one of eight or four bytes, a length-delimited one, or a group of
      fields. The number at the end of a group is not looked at. */
  datatype Field =
    | Number(num: nat, v: nat)
    | Fixed64(num: nat, data: Bytes)
    | Delimited(num: nat, data: Bytes)
    | Group(num: nat, inner: seq<Field>, end: nat)
    | Fixed32(num: nat, data: Bytes)

  function Tag(num: nat, wireType: nat): Bytes {
    Encode(8 * num + wireType)
  }

  function WireType(f: Field): (t: nat)
    ensures t < 8 && t != 4
  {
    match f
    case Number(_, _) => 0
    case Fixed64(_, _) => 1
    case Delimited(_, _) => 2
    case Group(_, _, _) => 3
    case Fixed32(_, _) => 5
  }

  function Body(f: Field): Bytes
    decreases f, 0
  {
    match f
    case Number(_, v) => Encode(v)
    case Fixed64(_, data) => data
    case Delimited(_, data) => Encode(|data|) + data
    case Group(_, inner, end) => Wires(inner) + Tag(end, 4)
    case Fixed32(_, data) => data
  }

  function Wire(f: Field): Bytes
    decreases f, 1
  {
    Tag(f.num, WireType(f)) + Body(f)
  }

  function Wires(fs: seq<Field>): Bytes
    decreases fs, 0
  {
    if fs == [] then [] else Wire(fs[0]) + Wires(fs[1..])
  }

  ghost predicate WellFormed(f: Field) {
    && 8 * f.num + 5 < TWO64
    && match f
       case Number(_, v) => v < TWO64
       case Fixed64(_, data) => |data| == 8
       case Delimited(_, data) => |data| < TWO63
       case Group(_, inner, end) => 8 * end + 4 < TWO64 && forall g :: g in inner ==> WellFormed(g)
       case Fixed32(_, data) => |data| == 4
  }

  /** n bytes and then more, if the rest is skipped. */
  function Further(n: nat, more: Option<nat>): Option<nat> {
    if more.None? then None else Some(n + more.value)
  }

  lemma TagIsRead(num: nat, wireType: nat, rest: Bytes)
    requires wireType < 8 && 8 * num + wireType < TWO64
    ensures Tag(num, wireType) != []
    ensures ReadVarint(Tag(num, wireType) + rest, TWO64) == Some(Reading(8 * num + wireType, |Tag(num, wireType)|))
    ensures (8 * num + wireType) % 8 == wireType && (8 * num + wireType) / 8 == num
  {
    hide Encode;
    ReadOfEncode(8 * num + wireType, rest, TWO64);
  }

  lemma Behind(a: Bytes, b: Bytes)
    ensures (a + b)[|a|..] == b
  {
  }

  /** A field that is no group is skipped in one step, at any depth. */
  lemma SkipsPlain(f: Field, rest: Bytes, depth: nat)
    requires WellFormed(f) && !f.Group?
    ensures SkipOne(Wire(f) + rest, depth) == Some(Reading(depth, |Wire(f)|))
  {
    hide Encode, ReadVarint, Tag;
    var tag, body := Tag(f.num, WireType(f)), Body(f);
    assert Wire(f) + rest == tag + (body + rest);
    TagIsRead(f.num, WireType(f), body + rest);
    Behind(tag, body + rest);
    match f
    case Number(_, v) => ReadOfEncode(v, rest, TWO64);
    case Delimited(_, data) =>
      assert body + rest == Encode(|data|) + (data + rest);
      ReadOfEncode(|data|, data + rest, TWO64);
    case _ =>
  }

  lemma SkipsOn(bs: Bytes, depth: nat)
    requires SkipOne(bs, depth).Some?
    ensures var r := SkipOne(bs, depth).value;
            Skip(bs, depth) == if r.value == 0 then Some(r.len)
                               else if r.len >= |bs| then None else Further(r.len, Skip(bs[r.len..], r.value))
  {
    hide SkipOne;
  }

  lemma GroupWire(f: Field, rest: Bytes)
    requires f.Group?
    ensures Wire(f) + rest == Tag(f.num, 3) + (Wires(f.inner) + (Tag(f.end, 4) + rest))
    ensures |Wire(f)| == |Tag(f.num, 3)| + |Wires(f.inner)| + |Tag(f.end, 4)|
  {
    hide Tag, Wires;
    assert Wire(f) == Tag(f.num, 3) + (Wires(f.inner) + Tag(f.end, 4));
  }

  /** Every well-formed field is skipped as a whole, groups with all they hold; inside a group the skipping goes
      on behind it. */
  lemma {:induction false} SkipsField(f: Field, rest: Bytes, depth: nat)
    requires WellFormed(f) && (depth > 0 ==> rest != [])
    ensures Skip(Wire(f) + rest, depth)
            == if depth == 0 then Some(|Wire(f)|) else Further(|Wire(f)|, Skip(rest, depth))
    decreases f, if f.Group? then |f.inner| + 1 else 0
  {
    hide SkipOne, Skip, Encode, Tag;
    var bs := Wire(f) + rest;
    if f.Group? {
      var inside := Wires(f.inner) + (Tag(f.end, 4) + rest);
      GroupWire(f, rest);
      TagIsRead(f.end, 4, rest);
      SkipsStart(f.num, inside, depth);
      SkipsFields(f, f.inner, Tag(f.end, 4) + rest, depth + 1);
      SkipsStop(f.end, rest, depth);
    } else {
      SkipsPlain(f, rest, depth);
      SkipsOn(bs, depth);
      Behind(Wire(f), rest);
    }
  }

  lemma {:induction false} SkipsFields(g: Field, fs: seq<Field>, rest: Bytes, depth: nat)
    requires depth > 0 && rest != [] && forall f :: f in fs ==> WellFormed(f)
    requires forall f :: f in fs ==> f < g
    ensures Skip(Wires(fs) + rest, depth) == Further(|Wires(fs)|, Skip(rest, depth))
    decreases g, |fs|
  {
    hide SkipOne, Skip, Wire;
    if fs == [] {
      assert Wires(fs) + rest == rest;
    } else {
      assert fs[0] in fs && forall f :: f in fs[1..] ==> f in fs;
      assert Wires(fs) + rest == Wire(fs[0]) + (Wires(fs[1..]) + rest);
      SkipsField(fs[0], Wires(fs[1..]) + rest, depth);
      SkipsFields(g, fs[1..], rest, depth);
    }
  }

  lemma SkipsStart(num: nat, rest: Bytes, depth: nat)
    requires 8 * num + 3 < TWO64 && rest != []
    ensures Skip(Tag(num, 3) + rest, depth) == Further(|Tag(num, 3)|, Skip(rest, depth + 1))
  {
    hide ReadVarint, Skip;
    TagIsRead(num, 3, rest);
    hide Tag;
    SkipsOn(Tag(num, 3) + rest, depth);
    Behind(Tag(num, 3), rest);
  }

  lemma SkipsStop(num: nat, rest: Bytes, depth: nat)
    requires 8 * num + 4 < TWO64 && (depth > 0 ==> rest != [])
    ensures Skip(Tag(num, 4) + rest, depth + 1)
            == if depth == 0 then Some(|Tag(num, 4)|) else Further(|Tag(num, 4)|, Skip(rest, depth))
  {
    hide ReadVarint, Skip;
    TagIsRead(num, 4, rest);
    hide Tag;
    SkipsOn(Tag(num, 4) + rest, depth + 1);
    Behind(Tag(num, 4), rest);
  }

  /** A field whose number is positive as a 32-bit integer and not a known one. */
  ghost predicate Foreign(f: Field, known: set<int>) {
    WellFormed(f) && f.num < TWO32 / 2 && f.num > 0 && f.num !in known
  }

  /** Fields of other numbers are unknown fields, whatever they hold. */
  lemma {:induction false} ForeignIsUnknown(fs: seq<Field>, known: set<int>)
    requires forall f :: f in fs ==> Foreign(f, known)
    ensures Unknown(Wires(fs), known)
  {
    hide Wire, ReadHeader, ReadUnknown;
    if fs != [] {
      assert fs[0] in fs && forall f :: f in fs[1..] ==> f in fs;
      ForeignIsUnknown(fs[1..], known);
      ForeignFirst(fs[0], Wires(fs[1..]), known);
      Behind(Wire(fs[0]), Wires(fs[1..]));
    }
  }

  lemma ForeignFirst(f: Field, rest: Bytes, known: set<int>)
    requires Foreign(f, known)
    ensures Wire(f) != []
    ensures ReadUnknown(Wire(f) + rest) == Some(Reading(Wire(f), |Wire(f)|))
    ensures ReadHeader(Wire(f) + rest).Some? && ReadHeader(Wire(f) + rest).value.field !in known
  {
    hide Skip, Encode;
    SkipsField(f, rest, 0);
    assert (Wire(f) + rest)[..|Wire(f)|] == Wire(f);
    HeaderIsRead(f, rest);
  }

  lemma HeaderIsRead(f: Field, rest: Bytes)
    requires WellFormed(f) && 0 < f.num < TWO32 / 2
    ensures ReadHeader(Wire(f) + rest).Some? && ReadHeader(Wire(f) + rest).value.field == f.num
  {
    hide Encode, ReadVarint, Tag, Body;
    var tag, body := Tag(f.num, WireType(f)), Body(f);
    assert Wire(f) + rest == tag + (body + rest);
    TagIsRead(f.num, WireType(f), body + rest);
  }

  /** So a message keeps every field it does not know, groups included, byte for byte. */
  lemma ForeignFieldsAreKept(rc: RecordCodec, fs: seq<Field>, m: Message)
    requires forall f :: f in fs ==> Foreign(f, MESSAGE_FIELDS)
    ensures UnmarshalMessage(rc, Wires(fs), m) == Some(m.(unrecognized := m.unrecognized + Wires(fs)))
  {
    hide UnmarshalMessage, Unknown, Foreign;
    ForeignIsUnknown(fs, MESSAGE_FIELDS);
    UnknownFields(rc, Wires(fs), m);
  }

  // ----------------------------------------------------------- malformed input

  lemma Tagged(bs: Bytes)
    requires bs != [] && bs[0] < 128
    ensures ReadVarint(bs, TWO64) == Some(Reading(bs[0], 1))
  {
    assert Digits(bs, 10) == Some(Reading(bs[0], 1));
  }

  /** The end of a group without its start, and the two unused wire types, cannot be skipped; nor can a group that
      is not closed. */
  lemma NotSkipped(tag: Byte, rest: Bytes)
    requires tag < 128
    ensures tag % 8 in {4, 6, 7} ==> Skip([tag] + rest, 0) == None
    ensures tag % 8 == 3 ==> Skip([tag], 0) == None
  {
    Tagged([tag] + rest);
    Tagged([tag]);
    hide ReadVarint;
  }

  /** A length-delimited value is read if and only if its length is not negative as an int and all of it is there. */
  lemma ReadBytesExactly(n: nat, data: Bytes)
    requires n < TWO64
    ensures ReadBytes(Encode(n) + data)
            == if n < TWO63 && n <= |data| then Some(Reading(data[..n], |Encode(n)| + n)) else None
  {
    hide Encode;
    ReadOfEncode(n, data, TWO64);
    var k := |Encode(n)|;
    if n < TWO63 && n <= |data| {
      assert (Encode(n) + data)[k..k + n] == data[..n];
    }
  }

  /** A known field with another wire type is an error, in a peer and in a message. */
  lemma WrongWireType(rc: RecordCodec, tag: Byte, rest: Bytes, p: Peer, m: Message)
    requires 8 <= tag < 128 && tag % 8 != 4
    ensures tag / 8 in {1, 2} && tag % 8 != 2 ==> PeerStep([tag] + rest, p) == None
    ensures tag / 8 == 3 && tag % 8 != 0 ==> PeerStep([tag] + rest, p) == None
    ensures tag / 8 in {1, 10} && tag % 8 != 0 ==> MessageStep(rc, [tag] + rest, m) == None
    ensures tag / 8 in {2, 3, 8, 9} && tag % 8 != 2 ==> MessageStep(rc, [tag] + rest, m) == None
  {
    hide ReadHeader, ReadBytes, ReadVarint, SetBytes, ReadUnknown;
    HeaderOf(tag, rest);
  }

  /** A field number of zero, and the end of a group, are errors wherever a field may begin. */
  lemma BadTags(rc: RecordCodec, tag: Byte, rest: Bytes, p: Peer, m: Message)
    requires tag < 8 || (tag < 128 && tag % 8 == 4)
    ensures PeerStep([tag] + rest, p) == None && MessageStep(rc, [tag] + rest, m) == None
  {
    Tagged([tag] + rest);
    hide ReadVarint, ReadBytes, SetBytes, ReadUnknown;
  }

  // ------------------------------------------------------------ repeated fields

  /** A key that comes again replaces the first, a record is merged into the one that is there, and peers are
      added to those of their kind. */
  lemma RepeatedFields(rc: RecordCodec, data: Bytes, rest: Bytes, m: Message)
    requires |data| < TWO63
    ensures MessageStep(rc, BytesField(0x12, data) + rest, m)
            == Some(Reading(m.(key := data), |BytesField(0x12, data)|))
    ensures var r := rc.merge(if m.record.Some? then m.record.value else rc.empty, data);
            MessageStep(rc, BytesField(0x1a, data) + rest, m)
            == if r.None? then None else Some(Reading(m.(record := Some(r.value)), |BytesField(0x1a, data)|))
    ensures var p := UnmarshalPeer(data, NoPeer);
            && MessageStep(rc, BytesField(0x42, data) + rest, m)
               == (if p.None? then None
                   else Some(Reading(m.(closerPeers := m.closerPeers + [p.value]), |BytesField(0x42, data)|)))
            && MessageStep(rc, BytesField(0x4a, data) + rest, m)
               == (if p.None? then None
                   else Some(Reading(m.(providerPeers := m.providerPeers + [p.value]), |BytesField(0x4a, data)|)))
  {
    hide UnmarshalPeer, MessageStep;
    FieldIsSet(rc, 0x12, data, rest, m);
    FieldIsSet(rc, 0x1a, data, rest, m);
    FieldIsSet(rc, 0x42, data, rest, m);
    FieldIsSet(rc, 0x4a, data, rest, m);
  }

  lemma FieldIsSet(rc: RecordCodec, tag: Byte, data: Bytes, rest: Bytes, m: Message)
    requires tag in {0x12, 0x1a, 0x42, 0x4a} && |data| < TWO63
    ensures var m' := SetBytes(rc, m, tag / 8, data);
            MessageStep(rc, BytesField(tag, data) + rest, m)
            == if m'.None? then None else Some(Reading(m'.value, |BytesField(tag, data)|))
  {
    hide Encode, ReadHeader, ReadBytes, SetBytes, ReadUnknown;
    var behind := Encode(|data|) + (data + rest);
    assert BytesField(tag, data) + rest == [tag] + behind;
    HeaderOf(tag, behind);
    Behind([tag], behind);
    ReadBytesExactly(|data|, data + rest);
    assert (data + rest)[..|data|] == data;
  }

  // -------------------------------------------------------------- byte by byte

  lemma ShortField(tag: Byte, data: Bytes)
    requires |data| < 128
    ensures BytesField(tag, data) == [tag, |data|] + data
  {
  }

  /** Two peers byte by byte: fields in the order of their numbers, and no connection field if it is zero. */
  lemma PeerBytes()
    ensures MarshalPeer(Peer([7], [[8, 9]], 1, [])) == [0x0a, 1, 7, 0x12, 2, 8, 9, 0x18, 1]
    ensures MarshalPeer(Peer([], [], 0, [])) == [0x0a, 0]
  {
    ShortField(0x0a, [7]);
    ShortField(0x12, [8, 9]);
    ShortField(0x0a, []);
    var list: seq<Bytes> := [[8, 9]];
    assert list[1..] == [];
    assert BytesFields(0x12, list) == [0x12, 2, 8, 9];
    assert Encode(ToUint64(1)) == [1];
  }

  lemma OneField(tag: Byte, p: Peer)
    ensures BytesFields(tag, PeersBytes([p])) == BytesField(tag, MarshalPeer(p))
  {
    hide MarshalPeer, BytesField;
    var list := PeersBytes([p]);
    assert list[0] == MarshalPeer(p) && list[1..] == [];
  }

  lemma SmallNumber(tag: Byte, x: nat)
    requires 0 < x < 128
    ensures VarintField(tag, x) == [tag, x]
  {
  }

  lemma EmptyPeerField(tag: Byte)
    ensures BytesFields(tag, PeersBytes([NoPeer])) == [tag, 2, 0x0a, 0]
  {
    hide MarshalPeer, BytesField, BytesFields, PeersBytes;
    PeerBytes();
    OneField(tag, NoPeer);
    ShortField(tag, MarshalPeer(NoPeer));
  }

  lemma SixParts(a: Bytes, b: Bytes, c: Bytes, d: Bytes, e: Bytes)
    requires |a| == 2 && |b| == 3 && |c| == 4 && |d| == 4 && |e| == 2
    ensures a + (b + ([] + (c + (d + (e + [])))))
            == [a[0], a[1], b[0], b[1], b[2], c[0], c[1], c[2], c[3], d[0], d[1], d[2], d[3], e[0], e[1]]
  {
  }

  lemma MessageInParts(rc: RecordCodec)
    ensures MarshalMessage(rc, Message(4, 1, [5], None, [NoPeer], [NoPeer], []))
            == [0x08, 4] + ([0x12, 1, 5] + ([] + ([0x42, 2, 0x0a, 0] + ([0x4a, 2, 0x0a, 0] + ([0x50, 1] + [])))))
  {
    EmptyPeerField(0x42);
    EmptyPeerField(0x4a);
    ShortField(0x12, [5]);
    assert [0x12, |[5]|] + [5] == [0x12, 1, 5];
    SmallNumber(0x08, 4);
    SmallNumber(0x50, 1);
    hide MarshalPeer, BytesField, BytesFields, VarintField, PeersBytes;
  }

  /** A message byte by byte: kind, key, closer peers, provider peers and cluster level, in this order. */
  lemma MessageBytes(rc: RecordCodec)
    ensures MarshalMessage(rc, Message(4, 1, [5], None, [NoPeer], [NoPeer], []))
            == [0x08, 4, 0x12, 1, 5, 0x42, 2, 0x0a, 0, 0x4a, 2, 0x0a, 0, 0x50, 1]
  {
    hide MarshalMessage;
    MessageInParts(rc);
    SixParts([0x08, 4], [0x12, 1, 5], [0x42, 2, 0x0a, 0], [0x4a, 2, 0x0a, 0], [0x50, 1]);
  }

  lemma SevenOnes(v: nat)
    requires v > 0
    ensures Encode(128 * v + 127) == [255] + Encode(v)
  {
  }

  lemma FourTimes()
    ensures Encode(0x1fff_ffff) == [255, 255, 255, 255, 1]
  {
    assert Encode(1) == [1];
    hide Encode;
    SevenOnes(0x1);
    SevenOnes(0xff);
    SevenOnes(0x7fff);
    SevenOnes(0x3f_ffff);
  }

  /** A negative number takes ten bytes, as the 64-bit number it is extended to. */
  lemma NegativeBytes()
    ensures VarintField(0x08, -1) == [0x08, 255, 255, 255, 255, 255, 255, 255, 255, 255, 1]
  {
    FourTimes();
    hide Encode;
    SevenOnes(0x1fff_ffff);
    SevenOnes(0xf_ffff_ffff);
    SevenOnes(0x7ff_ffff_ffff);
    SevenOnes(0x3_ffff_ffff_ffff);
    SevenOnes(0x1ff_ffff_ffff_ffff);
  }
}

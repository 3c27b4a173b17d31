/** The wire format of DHT messages (go-libp2p-kad-dht/pb/dht.pb.go). */
module DhtCodec {
  import opened Options
  import opened Varints

  type Record(==, !new)

  /** The codec of the embedded record, which is generated elsewhere: unmarshalling merges into a given record. */
  datatype RecordCodec = RecordCodec(empty: Record, encode: Record -> Bytes, merge: (Record, Bytes) -> Option<Record>)

  ghost predicate Inverts(rc: RecordCodec) {
    forall r :: rc.merge(rc.empty, rc.encode(r)) == Some(r)
  }

  datatype Peer = Peer(id: Bytes, addrs: seq<Bytes>, connection: Int32, unrecognized: Bytes)

  datatype Message = Message(
    kind: Int32, clusterLevel: Int32, key: Bytes, record: Option<Record>,
    closerPeers: seq<Peer>, providerPeers: seq<Peer>, unrecognized: Bytes)

  const NoPeer := Peer([], [], 0, [])
  const NoMessage := Message(0, 0, [], None, [], [], [])

  // ---------------------------------------------------------------- writing

  function VarintField(tag: Byte, x: Int32): Bytes {
    if x == 0 then [] else [tag] + Encode(ToUint64(x))
  }

  function BytesField(tag: Byte, data: Bytes): Bytes {
    [tag] + (Encode(|data|) + data)
  }

  function BytesFields(tag: Byte, list: seq<Bytes>): Bytes {
    if list == [] then [] else BytesField(tag, list[0]) + BytesFields(tag, list[1..])
  }

  function MarshalPeer(p: Peer): Bytes {
    BytesField(0x0a, p.id) + (BytesFields(0x12, p.addrs) + (VarintField(0x18, p.connection) + p.unrecognized))
  }

  function PeersBytes(ps: seq<Peer>): (list: seq<Bytes>)
    ensures |list| == |ps|
  {
    seq(|ps|, i requires 0 <= i < |ps| => MarshalPeer(ps[i]))
  }

  function KeyField(m: Message): Bytes {
    if m.key == [] then [] else BytesField(0x12, m.key)
  }

  function RecordField(rc: RecordCodec, m: Message): Bytes {
    if m.record.None? then [] else BytesField(0x1a, rc.encode(m.record.value))
  }

  function MarshalMessage(rc: RecordCodec, m: Message): Bytes {
    VarintField(0x08, m.kind) + (KeyField(m) + (RecordField(rc, m) +
    (BytesFields(0x42, PeersBytes(m.closerPeers)) + (BytesFields(0x4a, PeersBytes(m.providerPeers)) +
    (VarintField(0x50, m.clusterLevel) + m.unrecognized)))))
  }

  // ---------------------------------------------------------------- reading

  datatype Header = Header(field: int, wireType: nat, len: nat)

  function ReadHeader(bs: Bytes): (h: Option<Header>)
    ensures h.Some? ==> 0 < h.value.len <= |bs|
  {
    match ReadVarint(bs, TWO64)
    case None => None
    case Some(r) =>
      var field := ToInt32(r.value / 8 % TWO32);
      if r.value % 8 == 4 || field <= 0 then None else Some(Header(field, r.value % 8, r.len))
  }

  /** A length that is negative as a 64-bit integer, or that goes beyond the input, is an error. */
  function ReadBytes(bs: Bytes): (r: Option<Reading<Bytes>>)
    ensures r.Some? ==> 0 < r.value.len <= |bs|
  {
    match ReadVarint(bs, TWO64)
    case None => None
    case Some(n) =>
      if n.value >= TWO63 || n.len + n.value > |bs| then None
      else Some(Reading(bs[n.len..n.len + n.value], n.len + n.value))
  }

  /** One tag of a field that is skipped, with its value: the new nesting depth of groups, and the
      length, which may reach beyond the input. */
  function SkipOne(bs: Bytes, depth: nat): (r: Option<Reading<nat>>)
    ensures r.Some? ==> r.value.len > 0 && bs != []
  {
    match ReadVarint(bs, TWO64)
    case None => None
    case Some(wire) =>
      var kind, v := wire.value % 8, ReadVarint(bs[wire.len..], TWO64);
      if kind == 0 then if v.None? then None else Some(Reading(depth, wire.len + v.value.len))
      else if kind == 1 then Some(Reading(depth, wire.len + 8))
      else if kind == 2 then
        if v.None? || v.value.value >= TWO63 then None else Some(Reading(depth, wire.len + v.value.len + v.value.value))
      else if kind == 3 then Some(Reading(depth + 1, wire.len))
      else if kind == 4 then if depth == 0 then None else Some(Reading(depth - 1, wire.len))
      else if kind == 5 then Some(Reading(depth, wire.len + 4))
      else None
  }

  /** `skipDht`: the length of the field at the front, a whole group if it opens one. */
  function Skip(bs: Bytes, depth: nat): (n: Option<nat>)
    ensures n.Some? ==> n.value > 0
    decreases |bs|
  {
    match SkipOne(bs, depth)
    case None => None
    case Some(r) =>
      if r.value == 0 then Some(r.len)
      else if r.len >= |bs| then None
      else
        var more := Skip(bs[r.len..], r.value);
        if more.None? then None else Some(r.len + more.value)
  }

  /** An unknown field is kept as it is. */
  function ReadUnknown(bs: Bytes): (r: Option<Reading<Bytes>>)
    ensures r.Some? ==> 0 < r.value.len <= |bs|
  {
    var n := Skip(bs, 0);
    if n.None? || n.value > |bs| then None else Some(Reading(bs[..n.value], n.value))
  }

  /** One field of a peer. */
  function PeerStep(bs: Bytes, p: Peer): (r: Option<Reading<Peer>>)
    ensures r.Some? ==> 0 < r.value.len <= |bs|
  {
    match ReadHeader(bs)
    case None => None
    case Some(h) =>
      var rest := bs[h.len..];
      if h.field == 1 || h.field == 2 then
        var r := ReadBytes(rest);
        if h.wireType != 2 || r.None? then None
        else Some(Reading(if h.field == 1 then p.(id := r.value.value) else p.(addrs := p.addrs + [r.value.value]),
                          h.len + r.value.len))
      else if h.field == 3 then
        var r := ReadVarint(rest, TWO32);
        if h.wireType != 0 || r.None? then None
        else Some(Reading(p.(connection := ToInt32(r.value.value)), h.len + r.value.len))
      else
        var r := ReadUnknown(bs);
        if r.None? then None else Some(Reading(p.(unrecognized := p.unrecognized + r.value.value), r.value.len))
  }

  function UnmarshalPeer(bs: Bytes, p: Peer): Option<Peer>
    decreases |bs|
  {
    if bs == [] then Some(p)
    else
      var r := PeerStep(bs, p);
      if r.None? then None else UnmarshalPeer(bs[r.value.len..], r.value.value)
  }

  /** What a length-delimited field does to the message. */
  function SetBytes(rc: RecordCodec, m: Message, field: int, data: Bytes): Option<Message> {
    if field == 2 then Some(m.(key := data))
    else if field == 3 then
      var r := rc.merge(if m.record.None? then rc.empty else m.record.value, data);
      if r.None? then None else Some(m.(record := Some(r.value)))
    else
      var p := UnmarshalPeer(data, NoPeer);
      if p.None? then None
      else if field == 8 then Some(m.(closerPeers := m.closerPeers + [p.value]))
      else Some(m.(providerPeers := m.providerPeers + [p.value]))
  }

  /** One field of a message. */
  function MessageStep(rc: RecordCodec, bs: Bytes, m: Message): (r: Option<Reading<Message>>)
    ensures r.Some? ==> 0 < r.value.len <= |bs|
  {
    match ReadHeader(bs)
    case None => None
    case Some(h) =>
      var rest := bs[h.len..];
      if h.field == 1 || h.field == 10 then
        var r := ReadVarint(rest, TWO32);
        if h.wireType != 0 || r.None? then None
        else
          var x := ToInt32(r.value.value);
          Some(Reading(if h.field == 1 then m.(kind := x) else m.(clusterLevel := x), h.len + r.value.len))
      else if h.field in {2, 3, 8, 9} then
        var r := ReadBytes(rest);
        if h.wireType != 2 || r.None? then None
        else
          var m' := SetBytes(rc, m, h.field, r.value.value);
          if m'.None? then None else Some(Reading(m'.value, h.len + r.value.len))
      else
        var r := ReadUnknown(bs);
        if r.None? then None else Some(Reading(m.(unrecognized := m.unrecognized + r.value.value), r.value.len))
  }

  function UnmarshalMessage(rc: RecordCodec, bs: Bytes, m: Message): Option<Message>
    decreases |bs|
  {
    if bs == [] then Some(m)
    else
      var r := MessageStep(rc, bs, m);
      if r.None? then None else UnmarshalMessage(rc, bs[r.value.len..], r.value.value)
  }

  // ---------------------------------------------------------- one field back

  lemma HeaderOf(tag: Byte, rest: Bytes)
    requires 8 <= tag < 128 && tag % 8 != 4
    ensures ReadHeader([tag] + rest) == Some(Header(tag / 8, tag % 8, 1))
  {
    assert Digits([tag] + rest, 10) == Some(Reading(tag, 1));
  }

  /** The tags carry the field numbers and wire types of the message definition. */
  lemma FieldNumbers(x: Int32, data: Bytes)
    requires x != 0
    ensures ReadHeader(VarintField(0x08, x)) == Some(Header(1, 0, 1))
            && ReadHeader(VarintField(0x50, x)) == Some(Header(10, 0, 1))
    ensures ReadHeader(BytesField(0x12, data)) == Some(Header(2, 2, 1))
            && ReadHeader(BytesField(0x1a, data)) == Some(Header(3, 2, 1))
    ensures ReadHeader(BytesField(0x42, data)) == Some(Header(8, 2, 1))
            && ReadHeader(BytesField(0x4a, data)) == Some(Header(9, 2, 1))
    ensures ReadHeader(BytesField(0x0a, data)) == Some(Header(1, 2, 1))
            && ReadHeader(VarintField(0x18, x)) == Some(Header(3, 0, 1))
  {
    hide ReadHeader, Encode;
    var v, d := Encode(ToUint64(x)), Encode(|data|) + data;
    HeaderOf(0x08, v);
    HeaderOf(0x50, v);
    HeaderOf(0x18, v);
    HeaderOf(0x12, d);
    HeaderOf(0x1a, d);
    HeaderOf(0x42, d);
    HeaderOf(0x4a, d);
    HeaderOf(0x0a, d);
  }

  lemma BytesBack(data: Bytes, rest: Bytes)
    requires |data| < TWO63
    ensures ReadBytes(Encode(|data|) + data + rest) == Some(Reading(data, |Encode(|data|) + data|))
  {
    hide ReadVarint, Encode;
    ReadOfEncode(|data|, data + rest, TWO64);
    assert Encode(|data|) + data + rest == Encode(|data|) + (data + rest);
  }

  lemma Int32Back(x: Int32, rest: Bytes)
    ensures ReadVarint(Encode(ToUint64(x)) + rest, TWO32).Some?
    ensures var r := ReadVarint(Encode(ToUint64(x)) + rest, TWO32).value;
            ToInt32(r.value) == x && r.len == |Encode(ToUint64(x))|
  {
    ReadOfEncode(ToUint64(x), rest, TWO32);
    Int32RoundTrip(x);
  }

  lemma TailOf(a: Bytes, b: Bytes)
    ensures (a + b)[|a|..] == b
  {
  }

  lemma PeerStepBytes(tag: Byte, data: Bytes, rest: Bytes, p: Peer)
    requires (tag == 0x0a || tag == 0x12) && |data| < TWO63
    ensures PeerStep(BytesField(tag, data) + rest, p)
              == Some(Reading(if tag == 0x0a then p.(id := data) else p.(addrs := p.addrs + [data]),
                              |BytesField(tag, data)|))
  {
    hide ReadBytes, ReadHeader, Encode;
    var body := Encode(|data|) + data;
    var bs := BytesField(tag, data) + rest;
    assert bs == [tag] + (body + rest) && bs[1..] == body + rest;
    HeaderOf(tag, body + rest);
    BytesBack(data, rest);
  }

  lemma PeerStepConnection(x: Int32, rest: Bytes, p: Peer)
    requires x != 0
    ensures PeerStep(VarintField(0x18, x) + rest, p) == Some(Reading(p.(connection := x), |VarintField(0x18, x)|))
  {
    hide ReadHeader, ReadVarint, Encode;
    var body := Encode(ToUint64(x));
    var bs := VarintField(0x18, x) + rest;
    assert bs == [0x18] + (body + rest) && bs[1..] == body + rest;
    HeaderOf(0x18, body + rest);
    Int32Back(x, rest);
  }

  // --------------------------------------------------------------- the peer

  /** The bytes are a sequence of complete fields with none of the known numbers. */
  ghost predicate Unknown(bs: Bytes, known: set<int>)
    decreases |bs|
  {
    bs != [] ==>
      && ReadHeader(bs).Some? && ReadHeader(bs).value.field !in known
      && ReadUnknown(bs).Some? && Unknown(bs[ReadUnknown(bs).value.len..], known)
  }

  const PEER_FIELDS := {1, 2, 3}
  const MESSAGE_FIELDS := {1, 2, 3, 8, 9, 10}

  lemma UnmarshalPeerOn(field: Bytes, rest: Bytes, p: Peer, p': Peer)
    requires field != [] && PeerStep(field + rest, p) == Some(Reading(p', |field|))
    ensures UnmarshalPeer(field + rest, p) == UnmarshalPeer(rest, p')
  {
    hide PeerStep;
    TailOf(field, rest);
  }

  lemma {:induction false} UnknownPeerFields(bs: Bytes, p: Peer)
    requires Unknown(bs, PEER_FIELDS)
    ensures UnmarshalPeer(bs, p) == Some(p.(unrecognized := p.unrecognized + bs))
    decreases |bs|
  {
    hide ReadHeader, ReadUnknown;
    if bs == [] {
      assert p.unrecognized + bs == p.unrecognized;
    } else {
      var r := ReadUnknown(bs).value;
      ReadUnknownIs(bs);
      assert PeerStep(bs, p) == Some(Reading(p.(unrecognized := p.unrecognized + r.value), r.len));
      UnknownPeerFields(bs[r.len..], p.(unrecognized := p.unrecognized + r.value));
      assert p.unrecognized + r.value + bs[r.len..] == p.unrecognized + bs;
    }
  }

  lemma ReadUnknownIs(bs: Bytes)
    requires ReadUnknown(bs).Some?
    ensures ReadUnknown(bs).value.value == bs[..ReadUnknown(bs).value.len]
  {
  }

  lemma {:induction false} PeerAddrsBack(addrs: seq<Bytes>, rest: Bytes, p: Peer)
    requires |BytesFields(0x12, addrs)| < TWO63
    ensures UnmarshalPeer(BytesFields(0x12, addrs) + rest, p) == UnmarshalPeer(rest, p.(addrs := p.addrs + addrs))
  {
    hide PeerStep, UnmarshalPeer;
    if addrs == [] {
      assert BytesFields(0x12, addrs) + rest == rest && p.addrs + addrs == p.addrs;
    } else {
      var first, others := BytesField(0x12, addrs[0]), BytesFields(0x12, addrs[1..]);
      var p' := p.(addrs := p.addrs + [addrs[0]]);
      assert first + others + rest == first + (others + rest);
      PeerStepBytes(0x12, addrs[0], others + rest, p);
      UnmarshalPeerOn(first, others + rest, p, p');
      PeerAddrsBack(addrs[1..], rest, p');
      assert p.addrs + [addrs[0]] + addrs[1..] == p.addrs + addrs;
    }
  }

  /** A peer comes back as it was, up to unknown fields that are no fields. */
  lemma PeerBack(p: Peer)
    requires |MarshalPeer(p)| < TWO63 && Unknown(p.unrecognized, PEER_FIELDS)
    ensures UnmarshalPeer(MarshalPeer(p), NoPeer) == Some(p)
  {
    hide PeerStep, UnmarshalPeer, Unknown, BytesFields;
    var id, addrs, connection := BytesField(0x0a, p.id), BytesFields(0x12, p.addrs), VarintField(0x18, p.connection);
    var tail := connection + p.unrecognized;
    var p1 := NoPeer.(id := p.id);
    var p2 := p1.(addrs := p.addrs);
    var p3 := p2.(connection := p.connection);
    PeerStepBytes(0x0a, p.id, addrs + tail, NoPeer);
    UnmarshalPeerOn(id, addrs + tail, NoPeer, p1);
    PeerAddrsBack(p.addrs, tail, p1);
    assert p1.addrs + p.addrs == p.addrs;
    if p.connection != 0 {
      PeerStepConnection(p.connection, p.unrecognized, p2);
      UnmarshalPeerOn(connection, p.unrecognized, p2, p3);
    } else {
      assert tail == p.unrecognized;
    }
    UnknownPeerFields(p.unrecognized, p3);
    assert p3.unrecognized + p.unrecognized == p.unrecognized;
  }

  // ------------------------------------------------------------ the message

  lemma MessageStepVarint(rc: RecordCodec, tag: Byte, x: Int32, rest: Bytes, m: Message)
    requires (tag == 0x08 || tag == 0x50) && x != 0
    ensures MessageStep(rc, VarintField(tag, x) + rest, m)
              == Some(Reading(if tag == 0x08 then m.(kind := x) else m.(clusterLevel := x), |VarintField(tag, x)|))
  {
    hide ReadHeader, ReadVarint, Encode;
    var body := Encode(ToUint64(x));
    var bs := VarintField(tag, x) + rest;
    assert bs == [tag] + (body + rest) && bs[1..] == body + rest;
    HeaderOf(tag, body + rest);
    Int32Back(x, rest);
  }

  lemma MessageStepBytes(rc: RecordCodec, tag: Byte, data: Bytes, rest: Bytes, m: Message, m': Message)
    requires tag in {0x12, 0x1a, 0x42, 0x4a} && |data| < TWO63 && SetBytes(rc, m, tag / 8, data) == Some(m')
    ensures MessageStep(rc, BytesField(tag, data) + rest, m) == Some(Reading(m', |BytesField(tag, data)|))
  {
    hide ReadBytes, ReadHeader, Encode, SetBytes;
    var body := Encode(|data|) + data;
    var bs := BytesField(tag, data) + rest;
    assert bs == [tag] + (body + rest) && bs[1..] == body + rest;
    HeaderOf(tag, body + rest);
    BytesBack(data, rest);
  }

  lemma UnmarshalOn(rc: RecordCodec, field: Bytes, rest: Bytes, m: Message, m': Message)
    requires if field == [] then m' == m else MessageStep(rc, field + rest, m) == Some(Reading(m', |field|))
    ensures UnmarshalMessage(rc, field + rest, m) == UnmarshalMessage(rc, rest, m')
  {
    hide MessageStep;
    TailOf(field, rest);
    assert field == [] ==> field + rest == rest;
  }

  lemma {:induction false} UnknownFields(rc: RecordCodec, bs: Bytes, m: Message)
    requires Unknown(bs, MESSAGE_FIELDS)
    ensures UnmarshalMessage(rc, bs, m) == Some(m.(unrecognized := m.unrecognized + bs))
    decreases |bs|
  {
    hide ReadHeader, ReadUnknown;
    if bs == [] {
      assert m.unrecognized + bs == m.unrecognized;
    } else {
      var r := ReadUnknown(bs).value;
      ReadUnknownIs(bs);
      assert MessageStep(rc, bs, m) == Some(Reading(m.(unrecognized := m.unrecognized + r.value), r.len));
      UnknownFields(rc, bs[r.len..], m.(unrecognized := m.unrecognized + r.value));
      assert m.unrecognized + r.value + bs[r.len..] == m.unrecognized + bs;
    }
  }

  ghost predicate CleanPeers(ps: seq<Peer>) {
    forall p :: p in ps ==> Unknown(p.unrecognized, PEER_FIELDS)
  }

  function AddPeers(m: Message, tag: Byte, ps: seq<Peer>): Message {
    if tag == 0x42 then m.(closerPeers := m.closerPeers + ps) else m.(providerPeers := m.providerPeers + ps)
  }

  lemma {:induction false} PeersBack(rc: RecordCodec, tag: Byte, ps: seq<Peer>, rest: Bytes, m: Message)
    requires (tag == 0x42 || tag == 0x4a) && |BytesFields(tag, PeersBytes(ps))| < TWO63 && CleanPeers(ps)
    ensures UnmarshalMessage(rc, BytesFields(tag, PeersBytes(ps)) + rest, m)
            == UnmarshalMessage(rc, rest, AddPeers(m, tag, ps))
  {
    hide MessageStep, UnmarshalMessage, UnmarshalPeer, MarshalPeer, Unknown;
    if ps == [] {
      assert BytesFields(tag, PeersBytes(ps)) + rest == rest;
      assert AddPeers(m, tag, ps) == m;
    } else {
      var data := MarshalPeer(ps[0]);
      assert PeersBytes(ps)[1..] == PeersBytes(ps[1..]);
      var first, others := BytesField(tag, data), BytesFields(tag, PeersBytes(ps[1..]));
      var m' := AddPeers(m, tag, [ps[0]]);
      assert first + others + rest == first + (others + rest);
      PeerBack(ps[0]);
      MessageStepBytes(rc, tag, data, others + rest, m, m');
      UnmarshalOn(rc, first, others + rest, m, m');
      PeersBack(rc, tag, ps[1..], rest, m');
      assert [ps[0]] + ps[1..] == ps;
      assert AddPeers(m', tag, ps[1..]) == AddPeers(m, tag, ps) by { AddPeersTwice(m, tag, [ps[0]], ps[1..]); }
    }
  }

  lemma AddPeersTwice(m: Message, tag: Byte, ps: seq<Peer>, qs: seq<Peer>)
    ensures AddPeers(AddPeers(m, tag, ps), tag, qs) == AddPeers(m, tag, ps + qs)
  {
    assert m.closerPeers + ps + qs == m.closerPeers + (ps + qs);
    assert m.providerPeers + ps + qs == m.providerPeers + (ps + qs);
  }

  /** All unrecognized bytes, of the message and its peers, are unknown fields; there may be none. */
  ghost predicate Clean(m: Message) {
    Unknown(m.unrecognized, MESSAGE_FIELDS) && CleanPeers(m.closerPeers) && CleanPeers(m.providerPeers)
  }

  lemma NothingUnrecognized(m: Message)
    requires m.unrecognized == [] && forall p :: p in m.closerPeers || p in m.providerPeers ==> p.unrecognized == []
    ensures Clean(m)
  {
  }

  /** The parts of a message in the order they are written. */
  ghost function Part(rc: RecordCodec, m: Message, n: nat): Bytes
    requires n < 6
  {
    if n == 0 then VarintField(0x08, m.kind) else if n == 1 then KeyField(m) else if n == 2 then RecordField(rc, m)
    else if n == 3 then BytesFields(0x42, PeersBytes(m.closerPeers))
    else if n == 4 then BytesFields(0x4a, PeersBytes(m.providerPeers)) else VarintField(0x50, m.clusterLevel)
  }

  /** The message as far as it is known after n parts. */
  ghost function Known(m: Message, n: nat): Message {
    Message(if n > 0 then m.kind else 0, if n > 5 then m.clusterLevel else 0, if n > 1 then m.key else [],
            if n > 2 then m.record else None, if n > 3 then m.closerPeers else [],
            if n > 4 then m.providerPeers else [], [])
  }

  lemma PartBack(rc: RecordCodec, m: Message, n: nat, rest: Bytes)
    requires n < 6 && Inverts(rc) && Clean(m) && |Part(rc, m, n)| < TWO63
    ensures UnmarshalMessage(rc, Part(rc, m, n) + rest, Known(m, n)) == UnmarshalMessage(rc, rest, Known(m, n + 1))
  {
    hide MessageStep, UnmarshalMessage, Unknown, UnmarshalPeer, BytesFields, PeersBytes;
    var k, k' := Known(m, n), Known(m, n + 1);
    if n == 0 || n == 5 {
      if Part(rc, m, n) != [] {
        MessageStepVarint(rc, if n == 0 then 0x08 else 0x50, if n == 0 then m.kind else m.clusterLevel, rest, k);
      }
      UnmarshalOn(rc, Part(rc, m, n), rest, k, k');
    } else if n == 1 {
      if m.key != [] {
        MessageStepBytes(rc, 0x12, m.key, rest, k, k');
      }
      UnmarshalOn(rc, KeyField(m), rest, k, k');
    } else if n == 2 {
      if m.record.Some? {
        assert rc.merge(rc.empty, rc.encode(m.record.value)) == Some(m.record.value);
        MessageStepBytes(rc, 0x1a, rc.encode(m.record.value), rest, k, k');
      }
      UnmarshalOn(rc, RecordField(rc, m), rest, k, k');
    } else {
      var ps := if n == 3 then m.closerPeers else m.providerPeers;
      PeersBack(rc, if n == 3 then 0x42 else 0x4a, ps, rest, k);
      assert [] + ps == ps;
    }
  }

  /** The parts from n on, and what is unrecognized. */
  ghost function PartsFrom(rc: RecordCodec, m: Message, n: nat): Bytes
    requires n <= 6
    decreases 6 - n
  {
    if n == 6 then m.unrecognized else Part(rc, m, n) + PartsFrom(rc, m, n + 1)
  }

  lemma {:induction false} PartsBack(rc: RecordCodec, m: Message, n: nat)
    requires n <= 6 && Inverts(rc) && Clean(m) && |PartsFrom(rc, m, n)| < TWO63
    ensures UnmarshalMessage(rc, PartsFrom(rc, m, n), Known(m, n)) == Some(m)
    decreases 6 - n
  {
    hide UnmarshalMessage, Part, Known, Inverts;
    if n == 6 {
      UnknownFields(rc, m.unrecognized, Known(m, 6));
      KnownAll(m);
    } else {
      PartBack(rc, m, n, PartsFrom(rc, m, n + 1));
      PartsBack(rc, m, n + 1);
    }
  }

  lemma KnownAll(m: Message)
    ensures Known(m, 6).unrecognized + m.unrecognized == m.unrecognized && Known(m, 0) == NoMessage
    ensures Known(m, 6).(unrecognized := m.unrecognized) == m
  {
  }

  lemma MarshalParts(rc: RecordCodec, m: Message)
    ensures MarshalMessage(rc, m) == PartsFrom(rc, m, 0)
  {
    hide VarintField, KeyField, RecordField, BytesFields, PeersBytes;
    assert PartsFrom(rc, m, 5) == VarintField(0x50, m.clusterLevel) + m.unrecognized;
    assert PartsFrom(rc, m, 3)
           == BytesFields(0x42, PeersBytes(m.closerPeers))
              + (BytesFields(0x4a, PeersBytes(m.providerPeers)) + PartsFrom(rc, m, 5));
    assert PartsFrom(rc, m, 1) == KeyField(m) + (RecordField(rc, m) + PartsFrom(rc, m, 3));
  }

  /** Unmarshalling what was marshalled gives the same message: negative numbers, empty fields and
      unknown fields included. */
  lemma MessageBack(rc: RecordCodec, m: Message)
    requires Inverts(rc) && Clean(m) && |MarshalMessage(rc, m)| < TWO63
    ensures UnmarshalMessage(rc, MarshalMessage(rc, m), NoMessage) == Some(m)
  {
    hide UnmarshalMessage, MarshalMessage, PartsFrom, Known, Clean, Inverts;
    MarshalParts(rc, m);
    PartsBack(rc, m, 0);
    KnownAll(m);
  }

  // ------------------------------------------------------------------- size

  function VarintFieldSize(x: Int32): nat {
    if x == 0 then 0 else 1 + Sov(ToUint64(x))
  }

  function BytesFieldSize(len: nat): nat {
    1 + len + Sov(len)
  }

  function BytesFieldsSize(list: seq<Bytes>): nat {
    if list == [] then 0 else BytesFieldSize(|list[0]|) + BytesFieldsSize(list[1..])
  }

  function PeerSize(p: Peer): nat {
    BytesFieldSize(|p.id|) + BytesFieldsSize(p.addrs) + VarintFieldSize(p.connection) + |p.unrecognized|
  }

  function PeersSize(ps: seq<Peer>): nat {
    if ps == [] then 0 else BytesFieldSize(PeerSize(ps[0])) + PeersSize(ps[1..])
  }

  function MessageSize(rc: RecordCodec, m: Message): nat {
    VarintFieldSize(m.kind) + (if m.key == [] then 0 else BytesFieldSize(|m.key|))
    + (if m.record.None? then 0 else BytesFieldSize(|rc.encode(m.record.value)|))
    + PeersSize(m.closerPeers) + PeersSize(m.providerPeers) + VarintFieldSize(m.clusterLevel) + |m.unrecognized|
  }

  lemma FieldSizes(tag: Byte, x: Int32, data: Bytes)
    ensures |VarintField(tag, x)| == VarintFieldSize(x) && |BytesField(tag, data)| == BytesFieldSize(|data|)
  {
    hide Encode, Sov;
    EncodeSize(ToUint64(x));
    EncodeSize(|data|);
  }

  lemma {:induction false} BytesFieldsLength(tag: Byte, list: seq<Bytes>)
    ensures |BytesFields(tag, list)| == BytesFieldsSize(list)
  {
    if list != [] {
      FieldSizes(tag, 0, list[0]);
      BytesFieldsLength(tag, list[1..]);
    }
  }

  lemma PeerLength(p: Peer)
    ensures |MarshalPeer(p)| == PeerSize(p)
  {
    FieldSizes(0x0a, 0, p.id);
    FieldSizes(0x18, p.connection, []);
    BytesFieldsLength(0x12, p.addrs);
  }

  lemma {:induction false} PeersLength(tag: Byte, ps: seq<Peer>)
    ensures |BytesFields(tag, PeersBytes(ps))| == PeersSize(ps)
  {
    hide MarshalPeer, PeerSize, BytesField, BytesFieldSize;
    if ps != [] {
      assert PeersBytes(ps)[1..] == PeersBytes(ps[1..]);
      FieldSizes(tag, 0, MarshalPeer(ps[0]));
      PeerLength(ps[0]);
      PeersLength(tag, ps[1..]);
    }
  }

  /** Marshalling writes exactly Size bytes. */
  lemma MessageLength(rc: RecordCodec, m: Message)
    ensures |MarshalMessage(rc, m)| == MessageSize(rc, m)
  {
    hide VarintField, BytesField, BytesFields, PeersBytes, VarintFieldSize, BytesFieldSize, PeersSize;
    FieldSizes(0x08, m.kind, m.key);
    FieldSizes(0x12, 0, m.key);
    FieldSizes(0x50, m.clusterLevel, []);
    FieldSizes(0x1a, 0, if m.record.None? then [] else rc.encode(m.record.value));
    PeersLength(0x42, m.closerPeers);
    PeersLength(0x4a, m.providerPeers);
  }
}

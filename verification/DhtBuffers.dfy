/** The marshalling code works on buffers: sizes are added up in loops, messages are written from the
    back to the front, and read with a moving index (go-libp2p-kad-dht/pb/dht.pb.go). */
module DhtBuffers {
  import opened Options
  import opened Varints
  import opened DhtCodec

  // ------------------------------------------------------------------- size

  /** The sum of the first n field sizes; the code adds them up in this order. */
  function SizeUpTo(list: seq<Bytes>, n: nat): nat
    requires n <= |list|
  {
    if n == 0 then 0 else SizeUpTo(list, n - 1) + BytesFieldSize(|list[n - 1]|)
  }

  lemma {:induction false} SizeUpToAll(list: seq<Bytes>, n: nat)
    requires n <= |list|
    ensures SizeUpTo(list, n) + BytesFieldsSize(list[n..]) == BytesFieldsSize(list)
  {
    if n > 0 {
      SizeUpToAll(list, n - 1);
      assert list[n - 1..][1..] == list[n..];
    } else {
      assert list[0..] == list;
    }
  }

  method SizeOfPeer(p: Peer) returns (n: nat)
    ensures n == PeerSize(p)
  {
    n := 1 + |p.id| + Sov(|p.id|);
    for i := 0 to |p.addrs|
      invariant n == BytesFieldSize(|p.id|) + SizeUpTo(p.addrs, i)
    {
      n := n + 1 + |p.addrs[i]| + Sov(|p.addrs[i]|);
    }
    SizeUpToAll(p.addrs, |p.addrs|);
    if p.connection != 0 {
      n := n + 1 + Sov(ToUint64(p.connection));
    }
    n := n + |p.unrecognized|;
  }

  function PeersSizeUpTo(ps: seq<Peer>, n: nat): nat
    requires n <= |ps|
  {
    if n == 0 then 0 else PeersSizeUpTo(ps, n - 1) + BytesFieldSize(PeerSize(ps[n - 1]))
  }

  lemma {:induction false} PeersSizeUpToAll(ps: seq<Peer>, n: nat)
    requires n <= |ps|
    ensures PeersSizeUpTo(ps, n) + PeersSize(ps[n..]) == PeersSize(ps)
  {
    if n > 0 {
      PeersSizeUpToAll(ps, n - 1);
      assert ps[n - 1..][1..] == ps[n..];
    } else {
      assert ps[0..] == ps;
    }
  }

  method SizeOfPeers(ps: seq<Peer>) returns (n: nat)
    ensures n == PeersSize(ps)
  {
    n := 0;
    for i := 0 to |ps|
      invariant n == PeersSizeUpTo(ps, i)
    {
      var l := SizeOfPeer(ps[i]);
      n := n + 1 + l + Sov(l);
    }
    PeersSizeUpToAll(ps, |ps|);
  }

  method Size(rc: RecordCodec, m: Message) returns (n: nat)
    ensures n == MessageSize(rc, m) == |MarshalMessage(rc, m)|
  {
    hide MarshalMessage, PeersSize, Sov;
    n := 0;
    if m.kind != 0 {
      n := n + 1 + Sov(ToUint64(m.kind));
    }
    if m.key != [] {
      n := n + 1 + |m.key| + Sov(|m.key|);
    }
    if m.record.Some? {
      var l := |rc.encode(m.record.value)|;
      n := n + 1 + l + Sov(l);
    }
    var closer := SizeOfPeers(m.closerPeers);
    var provider := SizeOfPeers(m.providerPeers);
    n := n + closer + provider;
    if m.clusterLevel != 0 {
      n := n + 1 + Sov(ToUint64(m.clusterLevel));
    }
    n := n + |m.unrecognized|;
    MessageLength(rc, m);
  }

  // ------------------------------------------------------ writing backwards

  /** Two pieces written one before the other are one piece. */
  lemma Joined(s: Bytes, i: nat, j: nat, end: nat, tail: Bytes)
    requires i <= j <= end <= |s| && tail == s[j..end]
    ensures s[i..end] == s[i..j] + tail
  {
  }

  /** A write that changes nothing from j on keeps what is there. */
  lemma Kept(now: Bytes, was: Bytes, j: nat, end: nat)
    requires j <= end <= |now| == |was| && now[j..] == was[j..]
    ensures now[j..end] == was[j..end] && now[end..] == was[end..]
  {
    assert now[j..end] == now[j..][..end - j];
    assert now[end..] == now[j..][end - j..];
  }

  method WriteBytesField(a: array<Byte>, end: nat, tag: Byte, data: Bytes) returns (i: nat)
    requires BytesFieldSize(|data|) <= end <= a.Length
    modifies a
    ensures i == end - BytesFieldSize(|data|)
    ensures a[i..end] == BytesField(tag, data) && a[end..] == old(a[end..])
  {
    hide Encode, Sov;
    var j := WriteBytes(a, end, data);
    ghost var s := a[..];
    i := EncodeVarint(a, j, |data|);
    Kept(a[..], s, j, end);
    Joined(a[..], i, j, end, data);
    ghost var body := a[i..end];
    i := i - 1;
    a[i] := tag;
    assert a[i..end] == [tag] + body;
  }

  method WriteVarintField(a: array<Byte>, end: nat, tag: Byte, x: Int32) returns (i: nat)
    requires VarintFieldSize(x) <= end <= a.Length
    modifies a
    ensures i == end - VarintFieldSize(x)
    ensures a[i..end] == VarintField(tag, x) && a[end..] == old(a[end..])
  {
    hide Encode, Sov;
    i := end;
    if x != 0 {
      i := EncodeVarint(a, end, ToUint64(x));
      ghost var body := a[i..end];
      i := i - 1;
      a[i] := tag;
      assert a[i..end] == [tag] + body;
    }
  }

  /** The writers put their piece in front of what is already written up to `end`. */
  method PrependBytesField(a: array<Byte>, start: nat, ghost end: nat, tag: Byte, data: Bytes) returns (i: nat)
    requires BytesFieldSize(|data|) <= start <= end <= a.Length
    modifies a
    ensures i == start - BytesFieldSize(|data|)
    ensures a[i..end] == BytesField(tag, data) + old(a[start..end]) && a[end..] == old(a[end..])
  {
    hide BytesField, BytesFieldSize;
    i := WriteBytesField(a, start, tag, data);
    Kept(a[..], old(a[..]), start, end);
    Joined(a[..], i, start, end, old(a[start..end]));
  }

  method PrependVarintField(a: array<Byte>, start: nat, ghost end: nat, tag: Byte, x: Int32) returns (i: nat)
    requires VarintFieldSize(x) <= start <= end <= a.Length
    modifies a
    ensures i == start - VarintFieldSize(x)
    ensures a[i..end] == VarintField(tag, x) + old(a[start..end]) && a[end..] == old(a[end..])
  {
    hide VarintField, VarintFieldSize;
    i := WriteVarintField(a, start, tag, x);
    Kept(a[..], old(a[..]), start, end);
    Joined(a[..], i, start, end, old(a[start..end]));
  }

  /** The addresses of a peer, from the last to the first. */
  method MarshalAddrsTo(a: array<Byte>, start: nat, ghost end: nat, addrs: seq<Bytes>) returns (i: nat)
    requires BytesFieldsSize(addrs) <= start <= end <= a.Length
    modifies a
    ensures i == start - BytesFieldsSize(addrs)
    ensures a[i..end] == BytesFields(0x12, addrs) + old(a[start..end]) && a[end..] == old(a[end..])
  {
    hide BytesField, BytesFieldSize, BytesFields, BytesFieldsSize;
    i := start;
    ghost var tail := a[start..end];
    var k := |addrs|;
    NoAddrs(addrs[k..], tail);
    while k > 0
      invariant k <= |addrs| && 0 <= i <= start
      invariant i == start - BytesFieldsSize(addrs[k..])
      invariant a[i..end] == BytesFields(0x12, addrs[k..]) + tail && a[end..] == old(a[end..])
    {
      k := k - 1;
      AddrsFrom(addrs, k, tail);
      SizeUpToAll(addrs, k);
      i := PrependBytesField(a, i, end, 0x12, addrs[k]);
    }
    assert addrs[0..] == addrs;
  }

  lemma NoAddrs(addrs: seq<Bytes>, tail: Bytes)
    requires addrs == []
    ensures BytesFieldsSize(addrs) == 0 && BytesFields(0x12, addrs) + tail == tail
  {
  }

  lemma AddrsFrom(addrs: seq<Bytes>, k: nat, tail: Bytes)
    requires k < |addrs|
    ensures BytesFields(0x12, addrs[k..]) + tail
            == BytesField(0x12, addrs[k]) + (BytesFields(0x12, addrs[k + 1..]) + tail)
    ensures BytesFieldsSize(addrs[k..]) == BytesFieldSize(|addrs[k]|) + BytesFieldsSize(addrs[k + 1..])
  {
    hide BytesField, BytesFieldSize;
    assert addrs[k..][1..] == addrs[k + 1..];
  }

  method MarshalPeerTo(a: array<Byte>, end: nat, p: Peer) returns (i: nat)
    requires PeerSize(p) <= end <= a.Length
    modifies a
    ensures i == end - PeerSize(p) && a[i..end] == MarshalPeer(p) && a[end..] == old(a[end..])
  {
    hide BytesField, BytesFieldSize, VarintField, VarintFieldSize, BytesFields, BytesFieldsSize;
    i := WriteBytes(a, end, p.unrecognized);
    i := PrependVarintField(a, i, end, 0x18, p.connection);
    i := MarshalAddrsTo(a, i, end, p.addrs);
    i := PrependBytesField(a, i, end, 0x0a, p.id);
  }

  /** The peers of one kind, each behind its length. */
  method MarshalPeersTo(a: array<Byte>, start: nat, ghost end: nat, tag: Byte, ps: seq<Peer>) returns (i: nat)
    requires PeersSize(ps) <= start <= end <= a.Length
    modifies a
    ensures i == start - PeersSize(ps)
    ensures a[i..end] == BytesFields(tag, PeersBytes(ps)) + old(a[start..end]) && a[end..] == old(a[end..])
  {
    hide BytesField, BytesFieldSize, PeerSize, MarshalPeer, BytesFields, PeersBytes, PeersSize;
    i := start;
    ghost var tail := a[start..end];
    var k := |ps|;
    NoPeers(tag, ps[k..], tail);
    while k > 0
      invariant k <= |ps| && 0 <= i <= start
      invariant i == start - PeersSize(ps[k..])
      invariant a[i..end] == BytesFields(tag, PeersBytes(ps[k..])) + tail && a[end..] == old(a[end..])
    {
      k := k - 1;
      PeersFrom(tag, ps, k, tail);
      PeersSizeUpToAll(ps, k);
      i := PrependPeer(a, i, end, tag, ps[k]);
    }
    assert ps[0..] == ps;
  }

  lemma NoPeers(tag: Byte, ps: seq<Peer>, tail: Bytes)
    requires ps == []
    ensures PeersSize(ps) == 0 && BytesFields(tag, PeersBytes(ps)) + tail == tail
  {
  }

  lemma PeersFrom(tag: Byte, ps: seq<Peer>, k: nat, tail: Bytes)
    requires k < |ps|
    ensures BytesFields(tag, PeersBytes(ps[k..])) + tail
              == BytesField(tag, MarshalPeer(ps[k])) + (BytesFields(tag, PeersBytes(ps[k + 1..])) + tail)
    ensures PeersSize(ps[k..]) == BytesFieldSize(PeerSize(ps[k])) + PeersSize(ps[k + 1..])
  {
    hide BytesField, MarshalPeer, PeerSize, BytesFieldSize;
    assert ps[k..][1..] == ps[k + 1..];
    assert PeersBytes(ps[k..])[1..] == PeersBytes(ps[k + 1..]);
  }

  method PrependPeer(a: array<Byte>, start: nat, ghost end: nat, tag: Byte, p: Peer) returns (i: nat)
    requires BytesFieldSize(PeerSize(p)) <= start <= end <= a.Length
    modifies a
    ensures i == start - BytesFieldSize(PeerSize(p))
    ensures a[i..end] == BytesField(tag, MarshalPeer(p)) + old(a[start..end]) && a[end..] == old(a[end..])
  {
    hide PeerSize, MarshalPeer, Encode, Sov;
    PeerLength(p);
    var j := MarshalPeerTo(a, start, p);
    Kept(a[..], old(a[..]), start, end);
    Joined(a[..], j, start, end, old(a[start..end]));
    i := PrependLength(a, j, end, tag, start - j);
    FieldInFront(tag, MarshalPeer(p), old(a[start..end]));
  }

  /** A tag and a length in front of the data that was already written. */
  method PrependLength(a: array<Byte>, start: nat, ghost end: nat, tag: Byte, len: nat) returns (i: nat)
    requires 1 + Sov(len) <= start <= end <= a.Length
    modifies a
    ensures i == start - 1 - Sov(len)
    ensures a[i..end] == [tag] + (Encode(len) + old(a[start..end])) && a[end..] == old(a[end..])
  {
    hide Encode, Sov;
    i := EncodeVarint(a, start, len);
    Kept(a[..], old(a[..]), start, end);
    Joined(a[..], i, start, end, old(a[start..end]));
    ghost var body := a[i..end];
    i := i - 1;
    a[i] := tag;
    assert a[i..end] == [tag] + body;
  }

  lemma FieldInFront(tag: Byte, data: Bytes, tail: Bytes)
    ensures [tag] + (Encode(|data|) + (data + tail)) == BytesField(tag, data) + tail
  {
    hide Encode;
    Associative(Encode(|data|), data, tail);
    Associative([tag], Encode(|data|) + data, tail);
  }

  lemma Associative(a: Bytes, b: Bytes, c: Bytes)
    ensures a + (b + c) == a + b + c
  {
  }

  /** `MarshalToSizedBuffer` writes the message to the end of a buffer, from the back to the front. */
  method MarshalTo(a: array<Byte>, rc: RecordCodec, m: Message) returns (n: nat)
    requires MessageSize(rc, m) <= a.Length
    modifies a
    ensures n == MessageSize(rc, m) && a[a.Length - n..] == MarshalMessage(rc, m)
  {
    hide *;
    MessageSizeIs(rc, m);
    var i := MarshalTailTo(a, m);
    ghost var end, tail := a.Length, a[i..];
    assert tail == a[i..end];
    i := MarshalRecordTo(a, i, end, rc, m);
    i := MarshalKeyTo(a, i, end, m);
    i := PrependVarintField(a, i, end, 0x08, m.kind);
    assert a[i..] == a[i..end];
    MarshalIs(rc, m);
    n := a.Length - i;
  }

  function TailSize(m: Message): nat {
    PeersSize(m.closerPeers) + PeersSize(m.providerPeers) + VarintFieldSize(m.clusterLevel) + |m.unrecognized|
  }

  function KeySize(m: Message): nat {
    if m.key == [] then 0 else BytesFieldSize(|m.key|)
  }

  function RecordSize(rc: RecordCodec, m: Message): nat {
    if m.record.None? then 0 else BytesFieldSize(|rc.encode(m.record.value)|)
  }

  function MarshalTail(m: Message): Bytes {
    BytesFields(0x42, PeersBytes(m.closerPeers)) + (BytesFields(0x4a, PeersBytes(m.providerPeers)) +
    (VarintField(0x50, m.clusterLevel) + m.unrecognized))
  }

  lemma MessageSizeIs(rc: RecordCodec, m: Message)
    ensures MessageSize(rc, m) == VarintFieldSize(m.kind) + KeySize(m) + RecordSize(rc, m) + TailSize(m)
  {
  }

  lemma MarshalIs(rc: RecordCodec, m: Message)
    ensures MarshalMessage(rc, m) == VarintField(0x08, m.kind) + (KeyField(m) + (RecordField(rc, m) + MarshalTail(m)))
  {
  }

  method MarshalTailTo(a: array<Byte>, m: Message) returns (i: nat)
    requires TailSize(m) <= a.Length
    modifies a
    ensures i == a.Length - TailSize(m) && a[i..] == MarshalTail(m)
  {
    hide VarintField, VarintFieldSize, PeersSize, BytesFields, PeersBytes;
    ghost var end := a.Length;
    i := WriteBytes(a, a.Length, m.unrecognized);
    i := PrependVarintField(a, i, end, 0x50, m.clusterLevel);
    i := MarshalPeersTo(a, i, end, 0x4a, m.providerPeers);
    i := MarshalPeersTo(a, i, end, 0x42, m.closerPeers);
    assert a[i..] == a[i..end];
  }

  method MarshalRecordTo(a: array<Byte>, start: nat, ghost end: nat, rc: RecordCodec, m: Message) returns (i: nat)
    requires RecordSize(rc, m) <= start <= end <= a.Length
    modifies a
    ensures i == start - RecordSize(rc, m)
    ensures a[i..end] == RecordField(rc, m) + old(a[start..end]) && a[end..] == old(a[end..])
  {
    hide BytesField, BytesFieldSize;
    i := start;
    if m.record.Some? {
      i := PrependBytesField(a, start, end, 0x1a, rc.encode(m.record.value));
    }
  }

  method MarshalKeyTo(a: array<Byte>, start: nat, ghost end: nat, m: Message) returns (i: nat)
    requires KeySize(m) <= start <= end <= a.Length
    modifies a
    ensures i == start - KeySize(m)
    ensures a[i..end] == KeyField(m) + old(a[start..end]) && a[end..] == old(a[end..])
  {
    hide BytesField, BytesFieldSize;
    i := start;
    if m.key != [] {
      i := PrependBytesField(a, start, end, 0x12, m.key);
    }
  }

  method Marshal(rc: RecordCodec, m: Message) returns (a: array<Byte>)
    ensures fresh(a) && a.Length == MessageSize(rc, m) && a[..] == MarshalMessage(rc, m)
  {
    var size := Size(rc, m);
    a := new Byte[size](_ => 0);
    var n := MarshalTo(a, rc, m);
    assert a[a.Length - n..] == a[..];
  }

  // ----------------------------------------------------------- reading loops

  method ReadDelimited(data: Bytes, start: nat) returns (r: Option<Reading<Bytes>>)
    requires start <= |data|
    ensures r == ReadBytes(data[start..])
  {
    hide ReadVarint;
    var ok, len, i := ReadLoop(data, start, TWO64);
    if !ok || len >= TWO63 {
      return None;
    }
    var post := i + len;
    if post > |data| {
      return None;
    }
    r := Some(Reading(data[i..post], post - start));
    assert data[start..][i - start..post - start] == data[i..post];
  }

  method ReadTag(data: Bytes, start: nat) returns (h: Option<Header>)
    requires start <= |data|
    ensures h == ReadHeader(data[start..])
  {
    hide ReadVarint;
    var ok, wire, i := ReadLoop(data, start, TWO64);
    if !ok {
      return None;
    }
    var field := ToInt32(wire / 8 % TWO32);
    var wireType := wire % 8;
    if wireType == 4 || field <= 0 {
      return None;
    }
    h := Some(Header(field, wireType, i - start));
  }

  method SkipTag(data: Bytes, start: nat, depth: nat) returns (r: Option<Reading<nat>>)
    requires start <= |data|
    ensures r == SkipOne(data[start..], depth)
  {
    hide ReadVarint;
    var ok, wire, i := ReadLoop(data, start, TWO64);
    if !ok {
      return None;
    }
    assert data[start..][i - start..] == data[i..];
    var kind := wire % 8;
    if kind == 0 {
      ok, wire, i := ReadLoop(data, i, TWO64);
      return if ok then Some(Reading(depth, i - start)) else None;
    } else if kind == 1 {
      return Some(Reading(depth, i + 8 - start));
    } else if kind == 2 {
      ok, wire, i := ReadLoop(data, i, TWO64);
      return if ok && wire < TWO63 then Some(Reading(depth, i + wire - start)) else None;
    } else if kind == 3 {
      return Some(Reading(depth + 1, i - start));
    } else if kind == 4 {
      return if depth > 0 then Some(Reading(depth - 1, i - start)) else None;
    } else if kind == 5 {
      return Some(Reading(depth, i + 4 - start));
    }
    return None;
  }

  /** `skipDht` on the field that begins at `start`; the result may point beyond the data. */
  method SkipField(data: Bytes, start: nat) returns (n: Option<nat>)
    requires start <= |data|
    ensures n == Skip(data[start..], 0)
  {
    hide SkipOne;
    var i, depth := start, 0;
    while i < |data|
      invariant start <= i <= |data|
      invariant Skip(data[start..], 0) == Further(Skip(data[i..], depth), i - start)
      decreases |data| - i
    {
      var r := SkipTag(data, i, depth);
      if r.None? {
        return None;
      }
      i, depth := i + r.value.len, r.value.value;
      if depth == 0 {
        return Some(i - start);
      }
      if i >= |data| {
        return None;
      }
      assert data[i - r.value.len..][r.value.len..] == data[i..];
    }
    assert data[i..] == [];
    return None;
  }

  ghost function Further(n: Option<nat>, d: nat): Option<nat> {
    if n.None? then None else Some(n.value + d)
  }

  method ReadUnrecognized(data: Bytes, start: nat) returns (r: Option<Reading<Bytes>>)
    requires start <= |data|
    ensures r == ReadUnknown(data[start..])
  {
    hide Skip;
    var n := SkipField(data, start);
    if n.None? || start + n.value > |data| {
      return None;
    }
    r := Some(Reading(data[start..start + n.value], n.value));
    assert data[start..][..n.value] == data[start..start + n.value];
  }

  method ReadPeer(data: Bytes) returns (r: Option<Peer>)
    ensures r == UnmarshalPeer(data, NoPeer)
  {
    hide PeerStep;
    var p, i := NoPeer, 0;
    assert data[0..] == data;
    while i < |data|
      invariant i <= |data| && UnmarshalPeer(data, NoPeer) == UnmarshalPeer(data[i..], p)
    {
      var s := ReadPeerField(data, i, p);
      if s.None? {
        return None;
      }
      assert data[i..][s.value.len..] == data[i + s.value.len..];
      i, p := i + s.value.len, s.value.value;
    }
    assert data[i..] == [];
    return Some(p);
  }

  method ReadPeerField(data: Bytes, i: nat, p: Peer) returns (r: Option<Reading<Peer>>)
    requires i < |data|
    ensures r == PeerStep(data[i..], p)
  {
    hide ReadHeader, ReadBytes, ReadVarint, ReadUnknown;
    var h := ReadTag(data, i);
    if h.None? {
      return None;
    }
    var j := i + h.value.len;
    assert data[i..][h.value.len..] == data[j..];
    if h.value.field == 1 || h.value.field == 2 {
      if h.value.wireType != 2 {
        return None;
      }
      var d := ReadDelimited(data, j);
      if d.None? {
        return None;
      }
      var p' := if h.value.field == 1 then p.(id := d.value.value) else p.(addrs := p.addrs + [d.value.value]);
      return Some(Reading(p', h.value.len + d.value.len));
    } else if h.value.field == 3 {
      if h.value.wireType != 0 {
        return None;
      }
      var ok, v, k := ReadLoop(data, j, TWO32);
      if !ok {
        return None;
      }
      return Some(Reading(p.(connection := ToInt32(v)), k - i));
    } else {
      var u := ReadUnrecognized(data, i);
      if u.None? {
        return None;
      }
      return Some(Reading(p.(unrecognized := p.unrecognized + u.value.value), u.value.len));
    }
  }

  method Unmarshal(rc: RecordCodec, data: Bytes) returns (r: Option<Message>)
    ensures r == UnmarshalMessage(rc, data, NoMessage)
  {
    hide MessageStep;
    var m, i := NoMessage, 0;
    assert data[0..] == data;
    while i < |data|
      invariant i <= |data| && UnmarshalMessage(rc, data, NoMessage) == UnmarshalMessage(rc, data[i..], m)
    {
      var s := ReadField(rc, data, i, m);
      if s.None? {
        return None;
      }
      assert data[i..][s.value.len..] == data[i + s.value.len..];
      i, m := i + s.value.len, s.value.value;
    }
    assert data[i..] == [];
    return Some(m);
  }

  method ReadField(rc: RecordCodec, data: Bytes, i: nat, m: Message) returns (r: Option<Reading<Message>>)
    requires i < |data|
    ensures r == MessageStep(rc, data[i..], m)
  {
    hide ReadHeader, ReadBytes, ReadVarint, ReadUnknown, SetBytes;
    var h := ReadTag(data, i);
    if h.None? {
      return None;
    }
    var j := i + h.value.len;
    assert data[i..][h.value.len..] == data[j..];
    if h.value.field == 1 || h.value.field == 10 {
      if h.value.wireType != 0 {
        return None;
      }
      var ok, v, k := ReadLoop(data, j, TWO32);
      if !ok {
        return None;
      }
      var m' := if h.value.field == 1 then m.(kind := ToInt32(v)) else m.(clusterLevel := ToInt32(v));
      return Some(Reading(m', k - i));
    } else if h.value.field in {2, 3, 8, 9} {
      if h.value.wireType != 2 {
        return None;
      }
      var d := ReadDelimited(data, j);
      if d.None? {
        return None;
      }
      var m' := StoreBytes(rc, m, h.value.field, d.value.value);
      if m'.None? {
        return None;
      }
      return Some(Reading(m'.value, h.value.len + d.value.len));
    } else {
      var u := ReadUnrecognized(data, i);
      if u.None? {
        return None;
      }
      return Some(Reading(m.(unrecognized := m.unrecognized + u.value.value), u.value.len));
    }
  }

  method StoreBytes(rc: RecordCodec, m: Message, field: int, data: Bytes) returns (r: Option<Message>)
    ensures r == SetBytes(rc, m, field, data)
  {
    hide UnmarshalPeer;
    if field == 2 {
      return Some(m.(key := data));
    }
    if field == 3 {
      var record := if m.record.None? then rc.empty else m.record.value;
      var merged := rc.merge(record, data);
      if merged.None? {
        return None;
      }
      return Some(m.(record := Some(merged.value)));
    }
    var p := ReadPeer(data);
    if p.None? {
      return None;
    }
    if field == 8 {
      return Some(m.(closerPeers := m.closerPeers + [p.value]));
    }
    return Some(m.(providerPeers := m.providerPeers + [p.value]));
  }
}

/** Multiaddrs and their byte form (go-multiaddr: codec.go, component.go, multiaddr.go, varint.go). */
module Multiaddrs {
  import opened Options
  import opened Varints

  const MAX_INT32: nat := 0x7fff_ffff

  /** Text is handled as bytes. A missing result is an error. */
  datatype Transcoder = Transcoder(toBytes: Bytes -> Option<Bytes>, toText: Bytes -> Option<Bytes>,
                                   valid: Bytes -> bool)

  /** `size` is in bits; zero means no value, negative a value with its length in front. */
  datatype Protocol = Protocol(name: Bytes, code: int, vcode: Bytes, size: int, path: bool,
                               transcoder: Option<Transcoder>)

  datatype Registry = Registry(byCode: map<int, Protocol>, byName: map<Bytes, Protocol>)

  datatype Component = Component(bytes: Bytes, protocol: Protocol, start: nat)

  type Multiaddr = seq<Component>

  // ---------------------------------------------------------------- varints

  /** go-varint accepts at most nine bytes and only the shortest form; codes have at most 31 bits. */
  function ReadCode(bs: Bytes): (r: Option<Reading<nat>>)
    ensures r.Some? ==> 0 < r.value.len <= |bs| && r.value.value <= MAX_INT32
  {
    match Digits(bs, 9)
    case None => None
    case Some(r) =>
      if (r.len > 1 && bs[r.len - 1] == 0) || r.value > MAX_INT32 then None else Some(r)
  }

  lemma {:induction false} DigitsShortest(bs: Bytes, limit: nat)
    requires Digits(bs, limit).Some?
    ensures var r := Digits(bs, limit).value; (r.len > 1 ==> bs[r.len - 1] != 0) ==> bs[..r.len] == Encode(r.value)
    ensures var r := Digits(bs, limit).value; r.len > 1 && bs[r.len - 1] != 0 ==> r.value > 0
    decreases limit
  {
    if bs[0] >= 128 {
      DigitsShortest(bs[1..], limit - 1);
      var r := Digits(bs, limit).value;
      var rest: Reading<nat> := Digits(bs[1..], limit - 1).value;
      assert bs[1..][rest.len - 1] == bs[r.len - 1];
      if bs[r.len - 1] != 0 {
        assert bs[..r.len] == [bs[0]] + bs[1..][..rest.len];
        if rest.len == 1 {
          assert rest.value == bs[1];
        }
        assert rest.value > 0;
        assert r.value % 128 == bs[0] - 128 && r.value / 128 == rest.value && r.value >= 128;
      }
    }
  }

  /** Only the shortest form is read, so a code can be written in one way only. */
  lemma ReadCodeIsEncode(bs: Bytes)
    requires ReadCode(bs).Some?
    ensures bs[..ReadCode(bs).value.len] == Encode(ReadCode(bs).value.value)
  {
    DigitsShortest(bs, 9);
  }

  lemma {:induction false} EncodeEndsWell(v: nat)
    ensures var e := Encode(v); |e| > 1 ==> e[|e| - 1] != 0
  {
    if v >= 128 {
      EncodeEndsWell(v / 128);
    }
  }

  lemma ReadCodeOfEncode(v: nat, rest: Bytes)
    requires v <= MAX_INT32
    ensures ReadCode(Encode(v) + rest) == Some(Reading(v, |Encode(v)|))
  {
    hide Encode;
    assert Pow128(5) == 0x8_0000_0000;
    EncodeShort(v, 5);
    DigitsOfEncode(v, rest, 9);
    EncodeEndsWell(v);
  }

  // ------------------------------------------------------------- components

  /** The value is what is behind the start index, which a valid component has within its bytes. */
  function Value(c: Component): Bytes {
    if c.start <= |c.bytes| then c.bytes[c.start..] else []
  }

  /** The transcoder accepts the value in both ways the code asks it. */
  predicate Accepts(p: Protocol, value: Bytes) {
    p.transcoder.Some? ==> p.transcoder.value.toText(value).Some? && p.transcoder.value.valid(value)
  }

  /** `validateComponent`. */
  predicate Valid(c: Component) {
    && c.start <= |c.bytes|
    && 0 < |c.protocol.vcode| <= |c.bytes|
    && c.bytes[..|c.protocol.vcode|] == c.protocol.vcode
    && (if c.protocol.size < 0 then
          var r := ReadCode(c.bytes[|c.protocol.vcode|..]);
          r.Some? && r.value.value == |Value(c)| && |c.protocol.vcode| + r.value.len + r.value.value == |c.bytes|
        else c.protocol.size / 8 == |Value(c)| && |c.protocol.vcode| + c.protocol.size / 8 == |c.bytes|)
    && Accepts(c.protocol, Value(c))
  }

  /** The bytes of a component with a given value. */
  function Prefix(p: Protocol, len: nat): Bytes {
    p.vcode + if p.size < 0 then Encode(len) else []
  }

  /** `newComponent`. */
  function NewComponent(p: Protocol, value: Bytes): (c: Option<Component>) {
    var c := Component(Prefix(p, |value|) + value, p, |Prefix(p, |value|)|);
    if Valid(c) then Some(c) else None
  }

  /** A valid component is nothing but its protocol and its value. */
  lemma ValidShape(c: Component)
    requires Valid(c)
    ensures c.bytes == Prefix(c.protocol, |Value(c)|) + Value(c) && c.start == |Prefix(c.protocol, |Value(c)|)|
    ensures c.protocol.size < 0 ==> |Value(c)| <= MAX_INT32
  {
    hide Encode, Accepts, ReadCode;
    var p := c.protocol;
    if p.size < 0 {
      LengthInFront(c.bytes, p.vcode, c.start);
    } else {
      assert c.bytes == p.vcode + c.bytes[|p.vcode|..];
    }
  }

  /** Bytes that are a code, a length and as many bytes more. */
  lemma LengthInFront(bs: Bytes, vcode: Bytes, start: nat)
    requires |vcode| <= |bs| && bs[..|vcode|] == vcode && start <= |bs| && ReadCode(bs[|vcode|..]).Some?
    requires var r := ReadCode(bs[|vcode|..]).value; r.value == |bs[start..]| && |vcode| + r.len + r.value == |bs|
    ensures bs == vcode + Encode(|bs[start..]|) + bs[start..] && start == |vcode + Encode(|bs[start..]|)|
    ensures |bs[start..]| <= MAX_INT32
  {
    hide Encode, ReadCode;
    var after := bs[|vcode|..];
    var n := ReadCode(after).value.len;
    ReadCodeIsEncode(after);
    assert bs == bs[..|vcode|] + after;
    assert after == after[..n] + after[n..];
    assert after[n..] == bs[start..];
  }

  /** Rebuilding a component from its protocol and value gives the component. */
  lemma NewComponentOfValue(c: Component)
    requires Valid(c)
    ensures NewComponent(c.protocol, Value(c)) == Some(c)
  {
    hide Valid, Prefix;
    ValidShape(c);
  }

  /** What makes a new component valid. */
  lemma NewComponentValid(p: Protocol, value: Bytes)
    ensures NewComponent(p, value).Some? <==>
            p.vcode != [] && (if p.size < 0 then |value| <= MAX_INT32 else |value| == p.size / 8) && Accepts(p, value)
    ensures NewComponent(p, value).Some? ==> Value(NewComponent(p, value).value) == value
  {
    hide Accepts, Encode;
    var prefix := Prefix(p, |value|);
    var c := Component(prefix + value, p, |prefix|);
    assert Value(c) == value && c.bytes[..|p.vcode|] == p.vcode;
    if p.size < 0 {
      assert c.bytes[|p.vcode|..] == Encode(|value|) + value;
      if |value| <= MAX_INT32 {
        ReadCodeOfEncode(|value|, value);
      }
    }
  }

  /** `newComponent` fills a buffer of the right size from front to back. */
  method MakeComponent(p: Protocol, value: Bytes) returns (c: Option<Component>)
    ensures c == NewComponent(p, value)
  {
    hide Valid, Sov, Prefix;
    var size := |value| + |p.vcode|;
    if p.size < 0 {
      size := size + Sov(|value|);
    }
    var a := new Byte[size](_ => 0);
    var offset := WritePrefix(a, p, |value|);
    var i := WriteBytes(a, size, value);
    assert a[..] == a[..offset] + a[offset..size];
    var component := Component(a[..], p, offset);
    c := if Valid(component) then Some(component) else None;
  }

  method WritePrefix(a: array<Byte>, p: Protocol, len: nat) returns (offset: nat)
    requires |p.vcode| + (if p.size < 0 then Sov(len) else 0) <= a.Length
    modifies a
    ensures offset == |p.vcode| + (if p.size < 0 then Sov(len) else 0) == |Prefix(p, len)|
            && a[..offset] == Prefix(p, len)
  {
    hide Sov, Encode;
    EncodeSize(len);
    offset := |p.vcode|;
    var i := WriteBytes(a, offset, p.vcode);
    if p.size < 0 {
      assert a[..offset] == p.vcode;
      offset := offset + Sov(len);
      i := EncodeVarint(a, offset, len);
    }
    FrontOf(p, a[..], i, offset, len);
  }

  lemma FrontOf(p: Protocol, bs: Bytes, i: nat, offset: nat, len: nat)
    requires i <= offset <= |bs|
    requires if p.size < 0 then bs[..i] == p.vcode && bs[i..offset] == Encode(len)
             else i == 0 && bs[i..offset] == p.vcode
    ensures bs[..offset] == Prefix(p, len)
  {
    hide Encode;
    assert bs[..offset] == bs[..i] + bs[i..offset];
  }

  // --------------------------------------------------------------- registry

  /** What registration and the meaning of VCode give: every protocol is found under its code, which is
      what its VCode encodes. A code of zero counts as not registered. */
  ghost predicate Registered(reg: Registry, p: Protocol) {
    && 0 < p.code <= MAX_INT32 && p.code in reg.byCode && reg.byCode[p.code] == p
    && p.vcode == Encode(p.code)
  }

  ghost predicate Sound(reg: Registry) {
    forall code :: code in reg.byCode && reg.byCode[code].code != 0 ==>
      reg.byCode[code].code == code && Registered(reg, reg.byCode[code])
  }

  /** `AddProtocol`. */
  function AddProtocol(reg: Registry, p: Protocol): Option<Registry> {
    if p.name in reg.byName || p.code in reg.byCode then None
    else if (p.size != 0 && p.transcoder.None?) || (p.path && p.size >= 0) || p.vcode == [] then None
    else Some(Registry(reg.byCode[p.code := p], reg.byName[p.name := p]))
  }

  /** Registration does not look at what VCode holds: the registry stays sound if and only if the new
      protocol has code zero, or a code of at most 31 bits that its VCode encodes. Nothing is unregistered. */
  lemma AddProtocolSound(reg: Registry, p: Protocol)
    requires Sound(reg) && AddProtocol(reg, p).Some?
    ensures var reg' := AddProtocol(reg, p).value;
            && (Sound(reg') <==> p.code == 0 || (0 < p.code <= MAX_INT32 && p.vcode == Encode(p.code)))
            && (Sound(reg') && p.code != 0 ==> Registered(reg', p))
            && forall q :: Registered(reg, q) ==> Registered(reg', q)
  {
    hide Encode;
    var reg' := AddProtocol(reg, p).value;
    assert p.code in reg'.byCode && reg'.byCode[p.code] == p;
    if p.code == 0 || (0 < p.code <= MAX_INT32 && p.vcode == Encode(p.code)) {
      forall code | code in reg'.byCode && reg'.byCode[code].code != 0
        ensures reg'.byCode[code].code == code && Registered(reg', reg'.byCode[code])
      {
        if code != p.code {
          assert Registered(reg, reg.byCode[code]);
        }
      }
    }
  }

  /** A protocol is taken if and only if its name and its code are new, it has a transcoder if it has a value, a
      path has a value of any length, and VCode is not empty; it is then found under both. */
  lemma AddProtocolExactly(reg: Registry, p: Protocol)
    ensures var reg' := AddProtocol(reg, p);
            && (reg'.Some? <==> p.name !in reg.byName && p.code !in reg.byCode && (p.size == 0 || p.transcoder.Some?)
                                && (p.path ==> p.size < 0) && p.vcode != [])
            && (reg'.Some? ==>
                  && reg'.value.byCode.Keys == reg.byCode.Keys + {p.code} && reg'.value.byCode[p.code] == p
                  && reg'.value.byName.Keys == reg.byName.Keys + {p.name} && reg'.value.byName[p.name] == p
                  && (forall c :: c in reg.byCode ==> reg'.value.byCode[c] == reg.byCode[c])
                  && forall n :: n in reg.byName ==> reg'.value.byName[n] == reg.byName[n])
  {
  }

  /** A protocol whose VCode encodes another code is taken. */
  lemma AnyVCodeIsTaken(name: Bytes)
    ensures var reg := AddProtocol(Registry(map[], map[]), Protocol(name, 6, [7], 0, false, None));
            reg.Some? && !Sound(reg.value)
  {
    AddProtocolSound(Registry(map[], map[]), Protocol(name, 6, [7], 0, false, None));
  }

  // ---------------------------------------------------------------- reading

  function Lookup(reg: Registry, code: nat): Option<Protocol> {
    if code !in reg.byCode || reg.byCode[code].code == 0 then None else Some(reg.byCode[code])
  }

  function Checked(c: Component): (r: Option<Reading<Component>>)
    ensures r.Some? ==> r.value == Reading(c, |c.bytes|) && Valid(c)
  {
    if Valid(c) then Some(Reading(c, |c.bytes|)) else None
  }

  /** The length of the value that follows the code, and where the value begins. */
  function ValueAt(p: Protocol, bs: Bytes, n: nat): (r: Option<Reading<nat>>)
    requires n <= |bs|
    ensures r.Some? ==> n <= r.value.len <= |bs|
  {
    if p.size < 0 then
      match ReadCode(bs[n..])
      case None => None
      case Some(r) => Some(Reading(r.value, n + r.len))
    else Some(Reading(p.size / 8, n))
  }

  function ReadComponent(reg: Registry, bs: Bytes): (r: Option<Reading<Component>>)
    ensures r.Some? ==> 0 < r.value.len <= |bs|
  {
    match ReadCode(bs)
    case None => None
    case Some(code) =>
      match Lookup(reg, code.value)
      case None => None
      case Some(p) =>
        if p.size == 0 then Checked(Component(bs[..code.len], p, code.len))
        else
          match ValueAt(p, bs, code.len)
          case None => None
          case Some(v) =>
            if |bs| - v.len < v.value || v.value == 0 then None
            else Checked(Component(bs[..v.len + v.value], p, v.len))
  }

  function ReadAll(reg: Registry, bs: Bytes, sawPath: bool): Option<Multiaddr>
    decreases |bs|
  {
    if bs == [] then Some([])
    else
      match ReadComponent(reg, bs)
      case None => None
      case Some(r) =>
        if sawPath then None
        else
          match ReadAll(reg, bs[r.len..], r.value.protocol.path)
          case None => None
          case Some(rest) => Some([r.value] + rest)
  }

  /** `NewMultiaddrBytes`. */
  function ParseBytes(reg: Registry, bs: Bytes): Option<Multiaddr> {
    if bs == [] then None else ReadAll(reg, bs, false)
  }

  /** `Bytes`. */
  function BytesOf(m: Multiaddr): Bytes {
    if m == [] then [] else m[0].bytes + BytesOf(m[1..])
  }

  // --------------------------------------------------------------- theorems

  /** A component that can be in a parsed multiaddr. */
  ghost predicate Parsable(reg: Registry, c: Component) {
    Valid(c) && Registered(reg, c.protocol) && (c.protocol.size != 0 ==> Value(c) != [])
  }

  ghost predicate PathOnlyLast(m: Multiaddr) {
    forall i :: 0 <= i < |m| - 1 ==> !m[i].protocol.path
  }

  /** Reading consumes exactly one component, whatever follows it. */
  lemma ReadComponentOf(reg: Registry, c: Component, rest: Bytes)
    requires Parsable(reg, c)
    ensures ReadComponent(reg, c.bytes + rest) == Some(Reading(c, |c.bytes|))
  {
    hide Valid, Encode, ReadCode, ValueAt;
    var p, v := c.protocol, Value(c);
    var bs := c.bytes + rest;
    ValidShape(c);
    if p.size >= 0 {
      FixedSize(c);
    }
    CodeInFront(p, v, rest);
    assert Prefix(p, |v|) + v + rest == bs && bs[..|c.bytes|] == c.bytes;
  }

  /** What is read from a prefix, a value and anything behind it: the code, and where the value is. */
  lemma CodeInFront(p: Protocol, v: Bytes, rest: Bytes)
    requires 0 < p.code <= MAX_INT32 && p.vcode == Encode(p.code)
    requires if p.size < 0 then |v| <= MAX_INT32 else |v| == p.size / 8
    ensures var bs := Prefix(p, |v|) + v + rest;
            && ReadCode(bs) == Some(Reading(p.code, |p.vcode|))
            && ValueAt(p, bs, |p.vcode|) == Some(Reading(|v|, |Prefix(p, |v|)|))
  {
    hide Encode, ReadCode;
    var bs := Prefix(p, |v|) + v + rest;
    var behind := (if p.size < 0 then Encode(|v|) else []) + (v + rest);
    assert bs == p.vcode + behind;
    ReadCodeOfEncode(p.code, behind);
    assert bs[|p.vcode|..] == behind;
    if p.size < 0 {
      ReadCodeOfEncode(|v|, v + rest);
    }
  }

  lemma FixedSize(c: Component)
    requires Valid(c) && c.protocol.size >= 0
    ensures |Value(c)| == c.protocol.size / 8
  {
  }

  lemma ReadComponentParsable(reg: Registry, bs: Bytes)
    requires Sound(reg) && ReadComponent(reg, bs).Some?
    ensures var r := ReadComponent(reg, bs).value; Parsable(reg, r.value) && r.value.bytes == bs[..r.len]
  {
    hide Valid, ReadCode;
  }

  /** So a component that was read is read again from its own bytes, with anything behind them. */
  lemma ReadComponentLocal(reg: Registry, bs: Bytes, rest: Bytes)
    requires Sound(reg) && ReadComponent(reg, bs).Some?
    ensures var r := ReadComponent(reg, bs).value; ReadComponent(reg, bs[..r.len] + rest) == Some(r)
  {
    hide ReadComponent, Parsable;
    ReadComponentParsable(reg, bs);
    ReadComponentOf(reg, ReadComponent(reg, bs).value.value, rest);
  }

  /** What every accepted byte string is: the bytes of its components, all of them parsable, with a
      path component at most at the end. */
  lemma {:induction false} ReadAllExact(reg: Registry, bs: Bytes, sawPath: bool)
    requires Sound(reg) && ReadAll(reg, bs, sawPath).Some?
    ensures var m := ReadAll(reg, bs, sawPath).value;
            && BytesOf(m) == bs && PathOnlyLast(m) && (sawPath ==> m == [])
            && forall c :: c in m ==> Parsable(reg, c)
    decreases |bs|
  {
    hide ReadComponent, Parsable;
    if bs != [] {
      var r := ReadComponent(reg, bs).value;
      ReadComponentParsable(reg, bs);
      ReadAllExact(reg, bs[r.len..], r.value.protocol.path);
      var m := ReadAll(reg, bs, sawPath).value;
      assert m[1..] == ReadAll(reg, bs[r.len..], r.value.protocol.path).value;
      assert bs == bs[..r.len] + bs[r.len..];
    }
  }

  lemma ParsedIsExact(reg: Registry, bs: Bytes)
    requires Sound(reg) && ParseBytes(reg, bs).Some?
    ensures var m := ParseBytes(reg, bs).value;
            && m != [] && BytesOf(m) == bs && PathOnlyLast(m) && forall c :: c in m ==> Parsable(reg, c)
  {
    ReadAllExact(reg, bs, false);
  }

  lemma {:induction false} ReadAllOfBytes(reg: Registry, m: Multiaddr, sawPath: bool)
    requires PathOnlyLast(m) && (sawPath ==> m == []) && forall c :: c in m ==> Parsable(reg, c)
    ensures ReadAll(reg, BytesOf(m), sawPath) == Some(m)
    decreases |m|
  {
    hide ReadComponent;
    if m != [] {
      var rest := BytesOf(m[1..]);
      assert m[0] in m;
      ReadComponentOf(reg, m[0], rest);
      assert (m[0].bytes + rest)[|m[0].bytes|..] == rest;
      assert m[0].protocol.path ==> m[1..] == [];
      ReadAllOfBytes(reg, m[1..], m[0].protocol.path);
      assert m == [m[0]] + m[1..];
    }
  }

  /** A list of valid components of registered protocols is what its bytes parse to if and only if it
      is not empty, has a path at most at the end, and no protocol that wants a value has an empty one. */
  lemma BytesRoundTrip(reg: Registry, m: Multiaddr)
    requires Sound(reg) && forall c :: c in m ==> Valid(c) && Registered(reg, c.protocol)
    ensures ParseBytes(reg, BytesOf(m)) == Some(m) <==>
            m != [] && PathOnlyLast(m) && forall c :: c in m && c.protocol.size != 0 ==> Value(c) != []
  {
    hide ReadAll, Valid, Registered;
    if m != [] && PathOnlyLast(m) && forall c :: c in m && c.protocol.size != 0 ==> Value(c) != [] {
      ReadAllOfBytes(reg, m, false);
      NotEmpty(m);
    }
    if ParseBytes(reg, BytesOf(m)) == Some(m) {
      ParsedIsExact(reg, BytesOf(m));
    }
  }

  lemma NotEmpty(m: Multiaddr)
    requires m != [] && Valid(m[0])
    ensures BytesOf(m) != []
  {
  }

  // -------------------------------------------------------------- the loops

  lemma {:induction false} BytesOfLast(m: Multiaddr, c: Component)
    ensures BytesOf(m + [c]) == BytesOf(m) + c.bytes
  {
    if m != [] {
      BytesOfLast(m[1..], c);
      assert (m + [c])[1..] == m[1..] + [c];
    } else {
      assert [c][1..] == [] && m + [c] == [c];
    }
  }

  method ToBytes(m: Multiaddr) returns (out: Bytes)
    ensures out == BytesOf(m)
  {
    out := [];
    for i := 0 to |m|
      invariant out == BytesOf(m[..i])
    {
      BytesOfLast(m[..i], m[i]);
      assert m[..i + 1] == m[..i] + [m[i]];
      out := out + m[i].bytes;
    }
    assert m[..|m|] == m;
  }

  /** `readMultiaddr`: the error of a component behind a path is found after that component was read. */
  method ReadMultiaddr(reg: Registry, data: Bytes) returns (r: Option<Multiaddr>)
    ensures r == ParseBytes(reg, data)
  {
    hide ReadComponent;
    if data == [] {
      return None;
    }
    var b, res, sawPath := data, [], false;
    BehindNone(ReadAll(reg, data, false), res);
    while b != []
      invariant ReadAll(reg, data, false) == Behind(res, ReadAll(reg, b, sawPath))
      decreases |b|
    {
      var c := ReadComponent(reg, b);
      if c.None? {
        return None;
      }
      if sawPath {
        return None;
      }
      BehindNext(res, c.value.value, ReadAll(reg, b[c.value.len..], c.value.value.protocol.path));
      b := b[c.value.len..];
      sawPath := c.value.value.protocol.path;
      res := res + [c.value.value];
    }
    assert res + [] == res;
    return Some(res);
  }

  ghost function Behind(m: Multiaddr, rest: Option<Multiaddr>): Option<Multiaddr> {
    if rest.None? then None else Some(m + rest.value)
  }

  lemma BehindNone(rest: Option<Multiaddr>, m: Multiaddr)
    requires m == []
    ensures Behind(m, rest) == rest
  {
    if rest.Some? {
      assert m + rest.value == rest.value;
    }
  }

  lemma BehindNext(m: Multiaddr, c: Component, rest: Option<Multiaddr>)
    ensures Behind(m, Behind([c], rest)) == Behind(m + [c], rest)
  {
    if rest.Some? {
      assert m + ([c] + rest.value) == m + [c] + rest.value;
    }
  }
}

/** The transcoders for ports, network masks, memory addresses, domain names, IPv6 zones and unix paths
    (go-multiaddr/transcoders.go), and that they keep what printing relies on. */
module Transcoders {
  import opened Options
  import opened Varints
  import opened Multiaddrs
  import opened MultiaddrText

  // ------------------------------------------------- numbers as text: strconv

  predicate IsDigit(b: Byte) {
    48 <= b <= 57
  }

  function FormatUint(z: nat): (s: Bytes)
    ensures s != []
  {
    if z < 10 then [48 + z] else FormatUint(z / 10) + [48 + z % 10]
  }

  function Decimal(s: Bytes): Option<nat> {
    if s == [] then Some(0)
    else
      var k := |s| - 1;
      match Decimal(s[..k])
      case None => None
      case Some(z) => if IsDigit(s[k]) then Some(10 * z + (s[k] - 48)) else None
  }

  /** strconv.ParseUint in base ten: digits only, at least one, and the value has to fit. */
  function ParseUint(s: Bytes, bound: nat): (r: Option<nat>)
    ensures r.Some? ==> r.value < bound
  {
    if s == [] then None
    else
      match Decimal(s)
      case None => None
      case Some(z) => if z < bound then Some(z) else None
  }

  lemma {:induction false} DecimalOfFormat(z: nat)
    ensures Decimal(FormatUint(z)) == Some(z)
    ensures forall b :: b in FormatUint(z) ==> IsDigit(b)
  {
    var s := FormatUint(z);
    if z < 10 {
      assert s[..0] == [];
    } else {
      DecimalOfFormat(z / 10);
      assert s[..|s| - 1] == FormatUint(z / 10);
    }
  }

  function Pow10(n: nat): nat {
    if n == 0 then 1 else 10 * Pow10(n - 1)
  }

  /** The sum of the digits of s from place i on, each with the weight of its place. */
  ghost function DigitSum(s: Bytes, i: nat): int
    requires i <= |s|
    decreases |s| - i
  {
    if i == |s| then 0 else (s[i] - 48) * Pow10(|s| - 1 - i) + DigitSum(s, i + 1)
  }

  lemma {:induction false} DigitSumLast(s: Bytes, b: Byte, i: nat)
    requires i <= |s|
    ensures DigitSum(s + [b], i) == 10 * DigitSum(s, i) + (b - 48)
    decreases |s| - i
  {
    if i < |s| {
      DigitSumLast(s, b, i + 1);
      Scaled((s[i] as int) - 48, 10, Pow10(|s| - 1 - i));
    } else {
      assert DigitSum(s + [b], i + 1) == 0 && Pow10(0) == 1;
    }
  }

  lemma Scaled(a: int, k: int, b: int)
    ensures a * (k * b) == k * (a * b)
  {
  }

  /** Text is read as digits only, the first of which has the greatest weight. */
  lemma {:induction false} DecimalIsDigitSum(s: Bytes)
    ensures Decimal(s).Some? <==> forall b :: b in s ==> IsDigit(b)
    ensures Decimal(s).Some? ==> Decimal(s).value == DigitSum(s, 0)
  {
    if s != [] {
      var k := |s| - 1;
      DecimalIsDigitSum(s[..k]);
      assert s == s[..k] + [s[k]];
      DigitSumLast(s[..k], s[k], 0);
    }
  }

  /** Numbers are printed without leading zeros. */
  lemma {:induction false} NoLeadingZero(z: nat)
    ensures FormatUint(z)[0] == 48 <==> z == 0
    ensures z == 0 ==> FormatUint(z) == [48]
  {
    if z >= 10 {
      NoLeadingZero(z / 10);
      assert FormatUint(z)[0] == FormatUint(z / 10)[0];
    }
  }

  /** The printed number is the only text without leading zeros that is read as the number. */
  lemma {:induction false} FormatIsTheText(s: Bytes)
    requires s != [] && Decimal(s).Some? && (s[0] == 48 ==> |s| == 1)
    ensures FormatUint(Decimal(s).value) == s
  {
    var k := |s| - 1;
    var z := Decimal(s).value;
    if k == 0 {
      assert s[..0] == [] && Decimal(s[..0]) == Some(0);
      assert s == [s[0]];
    } else {
      FormatIsTheText(s[..k]);
      var y := Decimal(s[..k]).value;
      NoLeadingZero(y);
      assert y > 0;
      assert z / 10 == y && z % 10 == s[k] - 48;
      assert s == s[..k] + [s[k]];
    }
  }

  // ------------------------------------- numbers as bytes: binary.BigEndian

  function Number(bs: Bytes): nat {
    if bs == [] then 0 else 256 * Number(bs[..|bs| - 1]) + bs[|bs| - 1]
  }

  function BigEndian(z: nat, n: nat): (bs: Bytes)
    ensures |bs| == n
  {
    if n == 0 then [] else BigEndian(z / 256, n - 1) + [z % 256]
  }

  function Pow256(n: nat): nat {
    if n == 0 then 1 else 256 * Pow256(n - 1)
  }

  lemma {:induction false} BigEndianOfNumber(bs: Bytes)
    ensures BigEndian(Number(bs), |bs|) == bs && Number(bs) < Pow256(|bs|)
  {
    if bs != [] {
      BigEndianOfNumber(bs[..|bs| - 1]);
      assert bs == bs[..|bs| - 1] + [bs[|bs| - 1]];
    }
  }

  /** The sum of the bytes from place i on, each with the weight of its place. */
  ghost function ByteSum(bs: Bytes, i: nat): nat
    requires i <= |bs|
    decreases |bs| - i
  {
    if i == |bs| then 0 else bs[i] * Pow256(|bs| - 1 - i) + ByteSum(bs, i + 1)
  }

  lemma {:induction false} ByteSumLast(bs: Bytes, b: Byte, i: nat)
    requires i <= |bs|
    ensures ByteSum(bs + [b], i) == 256 * ByteSum(bs, i) + b
    decreases |bs| - i
  {
    if i < |bs| {
      ByteSumLast(bs, b, i + 1);
      Scaled(bs[i], 256, Pow256(|bs| - 1 - i));
    } else {
      assert ByteSum(bs + [b], i + 1) == 0 && Pow256(0) == 1;
    }
  }

  /** The first byte has the greatest weight. */
  lemma {:induction false} NumberIsByteSum(bs: Bytes)
    ensures Number(bs) == ByteSum(bs, 0)
  {
    if bs != [] {
      var k := |bs| - 1;
      NumberIsByteSum(bs[..k]);
      assert bs == bs[..k] + [bs[k]];
      ByteSumLast(bs[..k], bs[k], 0);
    }
  }

  lemma {:induction false} NumberOfBigEndian(z: nat, n: nat)
    requires z < Pow256(n)
    ensures Number(BigEndian(z, n)) == z
  {
    if n > 0 {
      NumberOfBigEndian(z / 256, n - 1);
      assert BigEndian(z, n)[..n - 1] == BigEndian(z / 256, n - 1);
    }
  }

  /** Numbers of n bytes; the text must be below 2^(8 n). */
  function NumberTranscoder(n: nat, check: bool): Transcoder {
    Transcoder(
      (s: Bytes) => match ParseUint(s, Pow256(n)) { case None => None case Some(z) => Some(BigEndian(z, n)) },
      (b: Bytes) => if |b| < n || (check && |b| != n) then None else Some(FormatUint(Number(b[..n]))),
      (b: Bytes) => check ==> |b| == n)
  }

  /** The port transcoder reads two bytes and has no check of its own; the other two check the length. */
  function PortTranscoder(): Transcoder { NumberTranscoder(2, false) }
  function IpCidrTranscoder(): Transcoder { NumberTranscoder(1, true) }
  function MemoryTranscoder(): Transcoder { NumberTranscoder(8, true) }

  /** The text of n bytes is the number they are, the first byte with the greatest weight. */
  lemma NumberText(n: nat, check: bool, v: Bytes)
    requires |v| == n
    ensures NumberTranscoder(n, check).toText(v) == Some(FormatUint(ByteSum(v, 0)))
  {
    NumberIsByteSum(v);
    assert v[..n] == v;
  }

  /** Which bytes are accepted. */
  lemma NumberLength(n: nat, check: bool, v: Bytes)
    ensures NumberTranscoder(n, check).valid(v) <==> !check || |v| == n
    ensures NumberTranscoder(n, check).toText(v).Some? <==> if check then |v| == n else |v| >= n
  {
  }

  /** The bytes of a text are those whose number the text is; other texts are refused. */
  lemma NumberBytes(n: nat, check: bool, s: Bytes)
    ensures var v := NumberTranscoder(n, check).toBytes(s);
            && (v.Some? <==> s != [] && (forall b :: b in s ==> IsDigit(b)) && DigitSum(s, 0) < Pow256(n))
            && (v.Some? ==> |v.value| == n && ByteSum(v.value, 0) == DigitSum(s, 0))
  {
    DecimalIsDigitSum(s);
    if s != [] && Decimal(s).Some? && Decimal(s).value < Pow256(n) {
      NumberOfBigEndian(Decimal(s).value, n);
      NumberIsByteSum(BigEndian(Decimal(s).value, n));
    }
  }

  /** A port is its two bytes, high byte first. */
  lemma PortValue(hi: Byte, lo: Byte)
    ensures PortTranscoder().toText([hi, lo]) == Some(FormatUint(256 * hi + lo))
    ensures PortTranscoder().toBytes(FormatUint(256 * hi + lo)) == Some([hi, lo])
  {
    var v: Bytes, z := [hi, lo], 256 * hi + lo;
    assert v[..2] == v && v[..1] == [hi] && [hi][..0] == [];
    assert Number([]) == 0 && Number([hi]) == hi && Number(v) == z;
    BigEndianOfNumber(v);
    DecimalOfFormat(z);
  }

  /** Port 80. */
  lemma PortEighty()
    ensures FormatUint(80) == [56, 48] && PortTranscoder().toBytes([56, 48]) == Some([0, 80])
  {
    assert FormatUint(80) == FormatUint(8) + [48];
    PortValue(0, 80);
  }

  lemma NumbersAreFaithful(p: Protocol, n: nat, check: bool)
    requires p.size == 8 * n && n > 0 && !p.path
    ensures Faithful(p, NumberTranscoder(n, check))
  {
    var t := NumberTranscoder(n, check);
    forall v | |v| == p.size / 8 && t.toText(v).Some? && t.valid(v)
      ensures t.toBytes(t.toText(v).value) == Some(v) && t.toText(v).value != [] && SlashFree(t.toText(v).value)
    {
      assert v[..n] == v;
      DecimalOfFormat(Number(v));
      BigEndianOfNumber(v);
    }
  }

  /** The text of n bytes is the number they are, high byte first. */
  ghost predicate PrintsNumber(t: Transcoder, n: nat) {
    forall v: Bytes :: |v| == n ==> t.toText(v) == Some(FormatUint(ByteSum(v, 0)))
  }

  lemma NumbersArePrinted(n: nat, check: bool)
    ensures PrintsNumber(NumberTranscoder(n, check), n)
  {
    forall v: Bytes | |v| == n ensures NumberTranscoder(n, check).toText(v) == Some(FormatUint(ByteSum(v, 0))) {
      NumberText(n, check, v);
    }
  }

  lemma PortFaithful(p: Protocol)
    requires p.size == 16 && !p.path
    ensures Faithful(p, PortTranscoder()) && PrintsNumber(PortTranscoder(), 2)
  {
    NumbersAreFaithful(p, 2, false);
    NumbersArePrinted(2, false);
  }

  lemma IpCidrFaithful(p: Protocol)
    requires p.size == 8 && !p.path
    ensures Faithful(p, IpCidrTranscoder()) && PrintsNumber(IpCidrTranscoder(), 1)
  {
    NumbersAreFaithful(p, 1, true);
    NumbersArePrinted(1, true);
  }

  lemma MemoryFaithful(p: Protocol)
    requires p.size == 64 && !p.path
    ensures Faithful(p, MemoryTranscoder()) && PrintsNumber(MemoryTranscoder(), 8)
  {
    NumbersAreFaithful(p, 8, true);
    NumbersArePrinted(8, true);
  }

  // -------------------------------------------------------- names and paths

  predicate IsName(b: Bytes) {
    b != [] && SlashFree(b)
  }

  /** Domain names are checked in both directions into bytes, but printed as they are. */
  function DnsTranscoder(): Transcoder {
    Transcoder((s: Bytes) => if IsName(s) then Some(s) else None, (b: Bytes) => Some(b), (b: Bytes) => IsName(b))
  }

  function Ip6ZoneTranscoder(): Transcoder {
    Transcoder(
      (s: Bytes) => if IsName(s) then Some(s) else None,
      (b: Bytes) => if b == [] then None else Some(b),
      (b: Bytes) => IsName(b))
  }

  predicate IsPath(b: Bytes) {
    |b| >= 2 && b[0] == SLASH && b[|b| - 1] != SLASH
  }

  function UnixTranscoder(): Transcoder {
    Transcoder((s: Bytes) => Some(s), (b: Bytes) => Some(b), (b: Bytes) => IsPath(b))
  }

  /** Names and paths are their own bytes; a name is a text without slash, a path begins with one. */
  lemma NamesAreThemselves(s: Bytes)
    ensures DnsTranscoder().toText(s) == Some(s) && UnixTranscoder().toText(s) == Some(s)
    ensures s != [] ==> Ip6ZoneTranscoder().toText(s) == Some(s)
    ensures UnixTranscoder().toBytes(s) == Some(s)
    ensures DnsTranscoder().toBytes(s) == Ip6ZoneTranscoder().toBytes(s)
            == if s != [] && SLASH !in s then Some(s) else None
    ensures DnsTranscoder().valid(s) <==> s != [] && SLASH !in s
    ensures Ip6ZoneTranscoder().valid(s) <==> s != [] && SLASH !in s
    ensures UnixTranscoder().valid(s) <==> |s| >= 2 && s[0] == SLASH && s[|s| - 1] != SLASH
  {
  }

  lemma NamesAreFaithful(p: Protocol)
    requires p.size < 0
    ensures !p.path ==> Faithful(p, DnsTranscoder()) && Faithful(p, Ip6ZoneTranscoder())
    ensures p.path ==> Faithful(p, UnixTranscoder())
  {
  }

  /** Without the path flag a unix path could not be read back. */
  lemma UnixNeedsPathFlag(p: Protocol)
    requires p.size < 0 && !p.path
    ensures !Faithful(p, UnixTranscoder())
  {
    var v: Bytes := [SLASH, 97];
    var t := UnixTranscoder();
    assert t.toText(v).Some? && t.valid(v) && !SlashFree(t.toText(v).value);
  }

  // ------------------------------------------------------- a whole registry

  /** The protocols without a value, and those with one of the transcoders above. */
  ghost predicate Standard(p: Protocol) {
    && p.name != [] && SlashFree(p.name)
    && 0 < p.code <= MAX_INT32 && p.vcode == Encode(p.code)
    && (|| (p.size == 0 && !p.path && p.transcoder == None)
        || (p.size == 16 && !p.path && p.transcoder == Some(PortTranscoder()))
        || (p.size == 8 && !p.path && p.transcoder == Some(IpCidrTranscoder()))
        || (p.size == 64 && !p.path && p.transcoder == Some(MemoryTranscoder()))
        || (p.size < 0 && !p.path && p.transcoder == Some(DnsTranscoder()))
        || (p.size < 0 && !p.path && p.transcoder == Some(Ip6ZoneTranscoder()))
        || (p.size < 0 && p.path && p.transcoder == Some(UnixTranscoder())))
  }

  lemma StandardIsFaithful(p: Protocol)
    requires Standard(p) && p.transcoder.Some?
    ensures Faithful(p, p.transcoder.value)
  {
    hide Faithful, Encode;
    if p.size == 16 {
      PortFaithful(p);
    } else if p.size == 8 {
      IpCidrFaithful(p);
    } else if p.size == 64 {
      MemoryFaithful(p);
    } else {
      NamesAreFaithful(p);
    }
  }

  /** `init` adds the protocols one after the other to an empty registry. */
  function Register(ps: seq<Protocol>): Option<Registry> {
    if ps == [] then Some(Registry(map[], map[]))
    else
      match Register(ps[..|ps| - 1])
      case None => None
      case Some(reg) => AddProtocol(reg, ps[|ps| - 1])
  }

  ghost predicate AllStandard(ps: seq<Protocol>) {
    forall p :: p in ps ==> Standard(p)
  }

  ghost predicate AllPrintable(reg: Registry) {
    forall code :: code in reg.byCode ==> Printable(reg, reg.byCode[code])
  }

  lemma AddKeepsPrintable(reg: Registry, p: Protocol)
    requires AllPrintable(reg) && Standard(p) && AddProtocol(reg, p).Some?
    ensures AllPrintable(AddProtocol(reg, p).value)
  {
    hide Faithful, Encode;
    var reg' := AddProtocol(reg, p).value;
    if p.transcoder.Some? {
      StandardIsFaithful(p);
    }
    forall code | code in reg'.byCode ensures Printable(reg', reg'.byCode[code]) {
      if code != p.code {
        assert Printable(reg, reg.byCode[code]);
      }
    }
  }

  lemma {:induction false} RegisterSound(ps: seq<Protocol>)
    requires AllStandard(ps) && Register(ps).Some?
    ensures Sound(Register(ps).value) && AllPrintable(Register(ps).value)
  {
    if ps != [] {
      var init, p := ps[..|ps| - 1], ps[|ps| - 1];
      assert AllStandard(init) && Standard(p);
      hide Standard, Sound, AllPrintable;
      RegisterSound(init);
      StandardHasCode(p);
      AddProtocolSound(Register(init).value, p);
      AddKeepsPrintable(Register(init).value, p);
    }
  }

  lemma StandardHasCode(p: Protocol)
    requires Standard(p)
    ensures 0 < p.code <= MAX_INT32 && p.vcode == Encode(p.code)
  {
  }

  /** In every registry of such protocols, whatever is parsed from bytes or from text is printed as text
      that is parsed to the same multiaddr and the same bytes. */
  lemma StandardRoundTrip(ps: seq<Protocol>, bs: Bytes)
    requires AllStandard(ps) && Register(ps).Some? && ParseBytes(Register(ps).value, bs).Some?
    ensures var reg := Register(ps).value;
            var m := ParseBytes(reg, bs).value;
            ParseText(reg, TextOf(m)) == Some(m) && TextToBytes(reg, TextOf(m)) == Some(bs)
  {
    hide ParseBytes, AllStandard, Register, Sound;
    RegisterSound(ps);
    ParsedPrintsBack(Register(ps).value, bs);
  }

  lemma StandardTextRoundTrip(ps: seq<Protocol>, s: Bytes)
    requires AllStandard(ps) && Register(ps).Some? && ParseText(Register(ps).value, s).Some?
    ensures var reg := Register(ps).value;
            var m := ParseText(reg, s).value;
            ParseText(reg, TextOf(m)) == Some(m) && TextToBytes(reg, TextOf(m)) == TextToBytes(reg, s)
  {
    hide ParseBytes, AllStandard, Register, TextOf, TextToBytes;
    StandardRoundTrip(ps, TextToBytes(Register(ps).value, s).value);
  }

  function StandardProtocol(name: Bytes, code: nat, size: int, path: bool, t: Option<Transcoder>): Protocol {
    Protocol(name, code, Encode(code), size, path, t)
  }

  /** One protocol for each of the transcoders, and one without a value: tcp, ipcidr, memory, dns,
      ip6zone, unix and ws. */
  function SomeProtocols(): (ps: seq<Protocol>) {
    [ StandardProtocol([116, 99, 112], 6, 16, false, Some(PortTranscoder())),
      StandardProtocol([105, 112, 99, 105, 100, 114], 43, 8, false, Some(IpCidrTranscoder())),
      StandardProtocol([109, 101, 109, 111, 114, 121], 777, 64, false, Some(MemoryTranscoder())),
      StandardProtocol([100, 110, 115], 53, -1, false, Some(DnsTranscoder())),
      StandardProtocol([105, 112, 54, 122, 111, 110, 101], 42, -1, false, Some(Ip6ZoneTranscoder())),
      StandardProtocol([117, 110, 105, 120], 400, -1, true, Some(UnixTranscoder())),
      StandardProtocol([119, 115], 477, 0, false, None) ]
  }

  ghost predicate DistinctProtocols(ps: seq<Protocol>) {
    forall i, j :: 0 <= i < j < |ps| ==> ps[i].code != ps[j].code && ps[i].name != ps[j].name
  }

  /** The registry holds exactly the codes and names of the protocols. */
  ghost predicate Holds(reg: Registry, ps: seq<Protocol>) {
    && (forall code :: code in reg.byCode <==> exists i :: 0 <= i < |ps| && ps[i].code == code)
    && (forall name :: name in reg.byName <==> exists i :: 0 <= i < |ps| && ps[i].name == name)
  }

  lemma StandardIsTaken(reg: Registry, p: Protocol)
    requires Standard(p)
    ensures AddProtocol(reg, p).Some? <==> p.name !in reg.byName && p.code !in reg.byCode
  {
  }

  lemma HoldsOneMore(reg: Registry, ps: seq<Protocol>, p: Protocol)
    requires Holds(reg, ps)
    ensures DistinctProtocols(ps + [p]) <==> DistinctProtocols(ps) && p.name !in reg.byName && p.code !in reg.byCode
    ensures Holds(Registry(reg.byCode[p.code := p], reg.byName[p.name := p]), ps + [p])
  {
    var qs := ps + [p];
    assert qs[|ps|] == p && forall i :: 0 <= i < |ps| ==> qs[i] == ps[i];
  }

  /** Such protocols are all accepted if and only if no two have the same code or the same name. */
  lemma {:induction false} RegisterExactly(ps: seq<Protocol>)
    requires AllStandard(ps)
    ensures Register(ps).Some? <==> DistinctProtocols(ps)
    ensures Register(ps).Some? ==> Holds(Register(ps).value, ps)
  {
    if ps != [] {
      var init, p := ps[..|ps| - 1], ps[|ps| - 1];
      assert AllStandard(init) && Standard(p) && ps == init + [p];
      hide Standard;
      RegisterExactly(init);
      if Register(init).Some? {
        hide Holds, DistinctProtocols;
        StandardIsTaken(Register(init).value, p);
        HoldsOneMore(Register(init).value, init, p);
      }
    }
  }

  lemma SomeAreStandard()
    ensures AllStandard(SomeProtocols())
  {
    hide PortTranscoder, IpCidrTranscoder, MemoryTranscoder, DnsTranscoder, Ip6ZoneTranscoder, UnixTranscoder, Encode;
  }

  lemma SomeAreDistinct()
    ensures DistinctProtocols(SomeProtocols())
  {
    hide PortTranscoder, IpCidrTranscoder, MemoryTranscoder, DnsTranscoder, Ip6ZoneTranscoder, UnixTranscoder, Encode;
    var ps := SomeProtocols();
    forall i, j | 0 <= i < j < |ps| ensures ps[i].code != ps[j].code && ps[i].name != ps[j].name {
      assert |ps[i].name| != |ps[j].name| || ps[i].name[0] != ps[j].name[0];
    }
  }

  /** These protocols are all accepted, so the round trip holds for them. */
  lemma SomeProtocolsRegister()
    ensures AllStandard(SomeProtocols()) && Register(SomeProtocols()).Some?
  {
    hide SomeProtocols, AllStandard, DistinctProtocols, Register;
    SomeAreStandard();
    SomeAreDistinct();
    RegisterExactly(SomeProtocols());
  }
}

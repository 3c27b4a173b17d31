/** The text form of multiaddrs (go-multiaddr: stringToBytes in codec.go, writeTo in component.go). */
module MultiaddrText {
  import opened Options
  import opened Varints
  import opened Multiaddrs

  const SLASH: Byte := 47

  predicate SlashFree(s: Bytes) {
    SLASH !in s
  }

  // ------------------------------------------------- strings.Split and Join

  function TrimRight(s: Bytes): (t: Bytes)
    ensures t <= s && (t == [] || t[|t| - 1] != SLASH)
    ensures forall i :: |t| <= i < |s| ==> s[i] == SLASH
  {
    if s == [] || s[|s| - 1] != SLASH then s else TrimRight(s[..|s| - 1])
  }

  /** One more byte in front of the parts. */
  function Glue(b: Byte, parts: seq<Bytes>): (r: seq<Bytes>)
    requires parts != []
    ensures r != []
  {
    if b == SLASH then [[]] + parts else [[b] + parts[0]] + parts[1..]
  }

  function Split(s: Bytes): (parts: seq<Bytes>)
    ensures parts != []
  {
    if s == [] then [[]] else Glue(s[0], Split(s[1..]))
  }

  function Join(parts: seq<Bytes>): Bytes {
    if parts == [] then []
    else if |parts| == 1 then parts[0]
    else parts[0] + [SLASH] + Join(parts[1..])
  }

  lemma GlueConcat(b: Byte, x: seq<Bytes>, y: seq<Bytes>)
    requires x != []
    ensures Glue(b, x + y) == Glue(b, x) + y
  {
  }

  lemma {:induction false} SplitAt(a: Bytes, b: Bytes)
    ensures Split(a + [SLASH] + b) == Split(a) + Split(b)
  {
    var s := a + [SLASH] + b;
    if a == [] {
      assert s[1..] == b;
      assert Split(s) == [[]] + Split(b);
    } else {
      hide Glue;
      SplitAt(a[1..], b);
      assert s[1..] == a[1..] + [SLASH] + b;
      GlueConcat(a[0], Split(a[1..]), Split(b));
    }
  }

  lemma {:induction false} SplitSlashFree(s: Bytes)
    requires SlashFree(s)
    ensures Split(s) == [s]
  {
    if s != [] {
      SplitSlashFree(s[1..]);
      assert s == [s[0]] + s[1..];
    }
  }

  lemma {:induction false} JoinSplit(s: Bytes)
    ensures Join(Split(s)) == s
  {
    if s != [] {
      JoinSplit(s[1..]);
      var rest := Split(s[1..]);
      assert s == [s[0]] + s[1..];
      if s[0] == SLASH {
        var parts := [[]] + rest;
        assert parts[1..] == rest;
      } else {
        var parts := [[s[0]] + rest[0]] + rest[1..];
        assert parts[1..] == rest[1..];
        assert |parts| > 1 ==> parts[0] + [SLASH] + Join(rest[1..]) == [s[0]] + (rest[0] + [SLASH] + Join(rest[1..]));
      }
    }
  }

  // ---------------------------------------------------------------- parsing

  function Lookup(reg: Registry, name: Bytes): Option<Protocol> {
    if name !in reg.byName || reg.byName[name].code == 0 then None else Some(reg.byName[name])
  }

  /** The bytes of a value, if the transcoder takes the text and accepts what it makes of it. */
  function ValueOf(p: Protocol, text: Bytes): Option<Bytes> {
    if p.transcoder.None? then None
    else
      match p.transcoder.value.toBytes(text)
      case None => None
      case Some(v) => if p.transcoder.value.valid(v) then Some(v) else None
  }

  function Then(front: Bytes, rest: Option<Bytes>): Option<Bytes> {
    if rest.None? then None else Some(front + rest.value)
  }

  /** The loop of `stringToBytes`; a path protocol takes all that is left. */
  function ParseParts(reg: Registry, parts: seq<Bytes>): Option<Bytes> {
    if parts == [] then Some([])
    else
      match Lookup(reg, parts[0])
      case None => None
      case Some(p) =>
        if p.size == 0 then Then(p.vcode, ParseParts(reg, parts[1..]))
        else if |parts| == 1 then None
        else
          match ValueOf(p, if p.path then [SLASH] + Join(parts[1..]) else parts[1])
          case None => None
          case Some(v) => Then(Prefix(p, |v|) + v, if p.path then Some([]) else ParseParts(reg, parts[2..]))
  }

  function TextToBytes(reg: Registry, s: Bytes): Option<Bytes> {
    var parts := Split(TrimRight(s));
    if parts[0] != [] || |parts| == 1 then None else ParseParts(reg, parts[1..])
  }

  /** `NewMultiaddr`. */
  function ParseText(reg: Registry, s: Bytes): Option<Multiaddr> {
    match TextToBytes(reg, s)
    case None => None
    case Some(b) => ParseBytes(reg, b)
  }

  // --------------------------------------------------------------- printing

  /** `Value`: an error of the transcoder is ignored. */
  function ValueText(c: Component): Bytes {
    if c.protocol.transcoder.None? then []
    else
      match c.protocol.transcoder.value.toText(Value(c))
      case None => []
      case Some(t) => t
  }

  function ComponentText(c: Component): Bytes {
    var t := ValueText(c);
    if t == [] then [SLASH] + c.protocol.name
    else if c.protocol.path && t[0] == SLASH then [SLASH] + c.protocol.name + t
    else [SLASH] + c.protocol.name + [SLASH] + t
  }

  function TextOf(m: Multiaddr): Bytes {
    if m == [] then [] else ComponentText(m[0]) + TextOf(m[1..])
  }

  // --------------------------------------------------- what transcoders owe

  /** The text of an accepted value is read back as the value, and fits between slashes: it is not
      empty and has no slash, or begins with one but does not end with one if it is a path. */
  ghost predicate Faithful(p: Protocol, t: Transcoder) {
    forall v :: (p.size >= 0 ==> |v| == p.size / 8) && t.toText(v).Some? && t.valid(v) ==>
      var text := t.toText(v).value;
      && t.toBytes(text) == Some(v)
      && if p.path then |text| > 1 && text[0] == SLASH && text[|text| - 1] != SLASH else text != [] && SlashFree(text)
  }

  /** A protocol that can be printed: it is found by its name, and its transcoder is faithful. */
  ghost predicate Printable(reg: Registry, p: Protocol) {
    && p.name != [] && SlashFree(p.name) && p.name in reg.byName && reg.byName[p.name] == p
    && (p.path ==> p.size < 0)
    && (p.size == 0 <==> p.transcoder.None?)
    && (p.transcoder.Some? ==> Faithful(p, p.transcoder.value))
  }

  ghost predicate Good(reg: Registry, c: Component) {
    Parsable(reg, c) && Printable(reg, c.protocol)
  }

  /** The parts between slashes that a component is printed as. */
  ghost function Parts(c: Component): seq<Bytes> {
    var t := ValueText(c);
    if c.protocol.size == 0 then [c.protocol.name]
    else if c.protocol.path && t != [] then [c.protocol.name] + Split(t[1..])
    else [c.protocol.name, t]
  }

  ghost function AllParts(m: Multiaddr): seq<Bytes> {
    if m == [] then [] else Parts(m[0]) + AllParts(m[1..])
  }

  /** What is known of the text of a good component. */
  lemma GoodText(reg: Registry, c: Component)
    requires Good(reg, c) && c.protocol.size != 0
    ensures ValueOf(c.protocol, ValueText(c)) == Some(Value(c))
    ensures var t := ValueText(c);
            if c.protocol.path then |t| > 1 && t[0] == SLASH && t[|t| - 1] != SLASH else t != [] && SlashFree(t)
  {
    hide Valid;
    GoodValue(c);
    var tr, v := c.protocol.transcoder.value, Value(c);
    assert tr.toText(v).Some? && tr.valid(v);
  }

  lemma GoodValue(c: Component)
    requires Valid(c)
    ensures Accepts(c.protocol, Value(c)) && (c.protocol.size >= 0 ==> |Value(c)| == c.protocol.size / 8)
  {
  }

  lemma NoText(reg: Registry, c: Component)
    requires Good(reg, c) && c.protocol.size == 0
    ensures ValueText(c) == []
  {
  }

  // ------------------------------------------------------------ the theorem

  /** What a slash and more text behind it are split into. */
  ghost function More(rest: Bytes): seq<Bytes> {
    if rest == [] then [] else Split(rest[1..])
  }

  lemma SplitSlash(s: Bytes)
    ensures Split([SLASH] + s) == [[]] + Split(s)
  {
    assert ([SLASH] + s)[1..] == s;
  }

  lemma SplitName(name: Bytes, rest: Bytes)
    requires SlashFree(name) && (rest == [] || rest[0] == SLASH)
    ensures Split([SLASH] + name + rest) == [[]] + [name] + More(rest)
  {
    hide Split;
    assert [SLASH] + name + rest == [SLASH] + (name + rest);
    SplitSlash(name + rest);
    SplitThen(name, rest);
  }

  lemma SplitNameValue(name: Bytes, t: Bytes, rest: Bytes)
    requires SlashFree(name) && SlashFree(t) && (rest == [] || rest[0] == SLASH)
    ensures Split([SLASH] + name + [SLASH] + t + rest) == [[]] + [name, t] + More(rest)
  {
    hide Split;
    assert [SLASH] + name + [SLASH] + t + rest == [SLASH] + name + ([SLASH] + t + rest);
    SplitName(name, [SLASH] + t + rest);
    assert ([SLASH] + t + rest)[1..] == t + rest;
    SplitThen(t, rest);
  }

  lemma SplitNamePath(name: Bytes, t: Bytes)
    requires SlashFree(name) && t != [] && t[0] == SLASH
    ensures Split([SLASH] + name + t) == [[]] + ([name] + Split(t[1..]))
  {
    hide Split;
    SplitName(name, t);
  }

  /** A component is printed as its parts with a slash before each, in front of more text. */
  lemma SplitComponent(reg: Registry, c: Component, rest: Bytes)
    requires Good(reg, c) && (rest == [] || (rest[0] == SLASH && !c.protocol.path))
    ensures Split(ComponentText(c) + rest) == [[]] + Parts(c) + More(rest)
  {
    hide Good, Split, ValueText, More;
    NameIsPlain(reg, c);
    if c.protocol.size == 0 {
      NoText(reg, c);
      SplitName(c.protocol.name, rest);
    } else {
      GoodText(reg, c);
      if c.protocol.path {
        SplitNamePath(c.protocol.name, ValueText(c));
        assert ComponentText(c) + rest == ComponentText(c);
        assert More(rest) == [] by { NoMore(rest); }
      } else {
        SplitNameValue(c.protocol.name, ValueText(c), rest);
      }
    }
  }

  lemma NoMore(rest: Bytes)
    requires rest == []
    ensures More(rest) == []
  {
  }

  lemma NameIsPlain(reg: Registry, c: Component)
    requires Good(reg, c)
    ensures SlashFree(c.protocol.name) && c.protocol.name != []
  {
  }

  lemma SplitNothing()
    ensures Split([]) == [[]]
  {
  }

  lemma SplitThen(s: Bytes, rest: Bytes)
    requires SlashFree(s) && (rest == [] || rest[0] == SLASH)
    ensures Split(s + rest) == [s] + More(rest)
  {
    hide Split;
    SplitSlashFree(s);
    if rest == [] {
      assert s + rest == s;
    } else {
      SplitAt(s, rest[1..]);
      assert s + rest == s + [SLASH] + rest[1..];
    }
  }

  ghost predicate AllGood(reg: Registry, m: Multiaddr) {
    forall c :: c in m ==> Good(reg, c)
  }

  lemma SplitTail(s: Bytes)
    requires s != [] && s[0] == SLASH
    ensures Split(s)[1..] == Split(s[1..])
  {
  }

  lemma TextStarts(m: Multiaddr)
    requires m != []
    ensures TextOf(m) != [] && TextOf(m)[0] == SLASH
  {
  }

  lemma {:induction false} SplitText(reg: Registry, m: Multiaddr)
    requires AllGood(reg, m) && PathOnlyLast(m)
    ensures Split(TextOf(m)) == [[]] + AllParts(m)
  {
    hide Good, Split, Parts, ComponentText;
    if m == [] {
      SplitNothing();
    } else {
      var c, rest := m[0], TextOf(m[1..]);
      assert c in m;
      SplitText(reg, m[1..]);
      assert c.protocol.path ==> m[1..] == [];
      if m[1..] != [] {
        TextStarts(m[1..]);
        SplitTail(rest);
      }
      SplitComponent(reg, c, rest);
      assert [[]] + Parts(c) + AllParts(m[1..]) == [[]] + (Parts(c) + AllParts(m[1..]));
    }
  }

  /** Parsing the parts of a component gives its bytes and goes on. */
  lemma ParseComponent(reg: Registry, c: Component, more: seq<Bytes>)
    requires Good(reg, c) && (c.protocol.path ==> more == [])
    ensures ParseParts(reg, Parts(c) + more) == Then(c.bytes, ParseParts(reg, more))
  {
    hide Valid, ValueText, ValueOf, Split, Join, Prefix;
    var p, t := c.protocol, ValueText(c);
    var parts := Parts(c) + more;
    GoodShape(reg, c);
    if p.size == 0 {
      assert parts[0] == p.name && parts[1..] == more;
      NoValue(reg, c);
    } else {
      GoodText(reg, c);
      if p.path {
        JoinSplit(t[1..]);
        assert parts[0] == p.name && parts[1..] == Split(t[1..]);
        assert [SLASH] + t[1..] == t;
      } else {
        assert parts[0] == p.name && parts[1] == t && parts[2..] == more;
      }
    }
  }

  lemma GoodShape(reg: Registry, c: Component)
    requires Good(reg, c)
    ensures c.bytes == Prefix(c.protocol, |Value(c)|) + Value(c)
    ensures Lookup(reg, c.protocol.name) == Some(c.protocol)
  {
    hide Valid;
    ValidShape(c);
  }

  lemma NoValue(reg: Registry, c: Component)
    requires Good(reg, c) && c.protocol.size == 0
    ensures c.bytes == c.protocol.vcode
  {
    hide Valid;
    GoodValue(c);
    ValidShape(c);
  }

  lemma {:induction false} ParseAllParts(reg: Registry, m: Multiaddr)
    requires AllGood(reg, m) && PathOnlyLast(m)
    ensures ParseParts(reg, AllParts(m)) == Some(BytesOf(m))
  {
    hide Good, Parts;
    if m != [] {
      assert m[0] in m;
      assert m[0].protocol.path ==> m[1..] == [];
      ParseAllParts(reg, m[1..]);
      ParseComponent(reg, m[0], AllParts(m[1..]));
    }
  }

  lemma {:induction false} TextEndsWell(reg: Registry, m: Multiaddr)
    requires AllGood(reg, m) && m != []
    ensures TextOf(m) != [] && TextOf(m)[|TextOf(m)| - 1] != SLASH
  {
    hide Good, ValueText;
    assert m[0] in m;
    if |m| == 1 {
      assert m[1..] == [];
      var c, t := m[0], ValueText(m[0]);
      NameIsPlain(reg, c);
      assert c.protocol.name[|c.protocol.name| - 1] in c.protocol.name;
      if c.protocol.size != 0 {
        GoodText(reg, c);
        assert t[|t| - 1] in t;
      } else {
        NoText(reg, c);
      }
    } else {
      TextEndsWell(reg, m[1..]);
    }
  }

  /** Printing and parsing again gives the same multiaddr, for every list of components that can be
      parsed and printed at all. */
  lemma TextRoundTrip(reg: Registry, m: Multiaddr)
    requires m != [] && AllGood(reg, m) && PathOnlyLast(m)
    ensures TextToBytes(reg, TextOf(m)) == Some(BytesOf(m)) && ParseText(reg, TextOf(m)) == Some(m)
  {
    hide Split, TextOf, ParseParts, AllParts, Valid;
    TextEndsWell(reg, m);
    SplitText(reg, m);
    ParseAllParts(reg, m);
    NotNothing(m);
    assert ([[]] + AllParts(m))[1..] == AllParts(m);
    ReadAllOfBytes(reg, m, false);
    assert m[0] in m;
    NotEmpty(m);
  }

  lemma NotNothing(m: Multiaddr)
    requires m != []
    ensures AllParts(m) != []
  {
  }

  /** In particular whatever was parsed from bytes, if all registered protocols are printable. */
  lemma ParsedPrintsBack(reg: Registry, bs: Bytes)
    requires Sound(reg) && ParseBytes(reg, bs).Some?
    requires forall code :: code in reg.byCode ==> Printable(reg, reg.byCode[code])
    ensures var m := ParseBytes(reg, bs).value;
            ParseText(reg, TextOf(m)) == Some(m) && TextToBytes(reg, TextOf(m)) == Some(bs)
  {
    hide ParseBytes, Printable, Valid;
    ParsedIsExact(reg, bs);
    TextRoundTrip(reg, ParseBytes(reg, bs).value);
  }

  // ------------------------------------------------------- what is refused

  /** Slashes at the end do not matter. */
  lemma TrailingSlashes(reg: Registry, s: Bytes)
    ensures TextToBytes(reg, s + [SLASH]) == TextToBytes(reg, s)
    ensures ParseText(reg, s + [SLASH]) == ParseText(reg, s)
  {
    hide Split, ParseParts;
    assert (s + [SLASH])[..|s|] == s;
    assert TrimRight(s + [SLASH]) == TrimRight(s);
  }

  lemma FirstPart(s: Bytes)
    ensures Split(s)[0] == [] ==> s == [] || s[0] == SLASH
    ensures Split([]) == [[]]
  {
  }

  /** A text has to begin with a slash and to hold more than slashes. */
  lemma TextBegins(reg: Registry, s: Bytes)
    requires TextToBytes(reg, s).Some?
    ensures |TrimRight(s)| > 1 && s[0] == SLASH
  {
    FirstPart(TrimRight(s));
    hide ParseParts, Split;
  }

  /** An unknown name is an error, and so is a name without the value it wants, at any place in a text. */
  lemma PartsRefused(reg: Registry, parts: seq<Bytes>)
    requires parts != []
    ensures parts[0] !in reg.byName || reg.byName[parts[0]].code == 0 ==> ParseParts(reg, parts) == None
    ensures |parts| == 1 && parts[0] in reg.byName && reg.byName[parts[0]].size != 0 ==> ParseParts(reg, parts) == None
  {
  }

  /** A component is refused if its transcoder does not take the text, or does not accept what it makes of it. */
  lemma ValueRefused(reg: Registry, parts: seq<Bytes>)
    requires |parts| >= 2 && parts[0] in reg.byName
    ensures var p := reg.byName[parts[0]];
            var text := if p.path then [SLASH] + Join(parts[1..]) else parts[1];
            p.size != 0 && ParseParts(reg, parts).Some? ==>
              && p.transcoder.Some? && p.transcoder.value.toBytes(text).Some?
              && p.transcoder.value.valid(p.transcoder.value.toBytes(text).value)
  {
  }

  // -------------------------------------------------------------- the loops

  lemma {:induction false} TextOfLast(m: Multiaddr, c: Component)
    ensures TextOf(m + [c]) == TextOf(m) + ComponentText(c)
  {
    hide ComponentText;
    if m != [] {
      TextOfLast(m[1..], c);
      assert (m + [c])[1..] == m[1..] + [c];
    } else {
      assert [c][1..] == [] && m + [c] == [c];
    }
  }

  method WriteTo(c: Component, buf: Bytes) returns (out: Bytes)
    ensures out == buf + ComponentText(c)
  {
    out := buf + [SLASH] + c.protocol.name;
    var value := ValueText(c);
    if value == [] {
      return;
    }
    if !(c.protocol.path && value[0] == SLASH) {
      out := out + [SLASH];
    }
    out := out + value;
  }

  method ToText(m: Multiaddr) returns (out: Bytes)
    ensures out == TextOf(m)
  {
    hide ComponentText;
    out := [];
    for i := 0 to |m|
      invariant out == TextOf(m[..i])
    {
      TextOfLast(m[..i], m[i]);
      assert m[..i + 1] == m[..i] + [m[i]];
      out := WriteTo(m[i], out);
    }
    assert m[..|m|] == m;
  }

  method StringToBytes(reg: Registry, s: Bytes) returns (r: Option<Bytes>)
    ensures r == TextToBytes(reg, s)
  {
    hide Split, TrimRight, ValueOf, Lookup, Prefix;
    var sp := Split(TrimRight(s));
    if sp[0] != [] {
      return None;
    }
    sp := sp[1..];
    if sp == [] {
      return None;
    }
    ghost var parts := sp;
    var b: Bytes := [];
    ThenNothing(ParseParts(reg, sp));
    while sp != []
      invariant ParseParts(reg, parts) == Then(b, ParseParts(reg, sp))
      decreases |sp|
    {
      ghost var before := sp;
      var p := Lookup(reg, sp[0]);
      if p.None? {
        return None;
      }
      ghost var b0 := b;
      if p.value.size == 0 {
        ThenThen(b, p.value.vcode, ParseParts(reg, sp[1..]));
        b := b + p.value.vcode;
        sp := sp[1..];
        continue;
      }
      sp := sp[1..];
      if sp == [] {
        return None;
      }
      if p.value.path {
        sp := [[SLASH] + Join(sp)];
      }
      var a := ValueOf(p.value, sp[0]);
      if a.None? {
        return None;
      }
      sp := sp[1..];
      assert !p.value.path ==> sp == before[2..];
      assert ParseParts(reg, []) == Some([]);
      ThenThen(b, Prefix(p.value, |a.value|) + a.value, ParseParts(reg, sp));
      b := b + (Prefix(p.value, |a.value|) + a.value);
    }
    assert b + [] == b;
    return Some(b);
  }

  lemma ThenNothing(r: Option<Bytes>)
    ensures Then([], r) == r
  {
    if r.Some? {
      assert [] + r.value == r.value;
    }
  }

  lemma ThenThen(a: Bytes, b: Bytes, r: Option<Bytes>)
    ensures Then(a, Then(b, r)) == Then(a + b, r)
  {
    if r.Some? {
      assert a + (b + r.value) == a + b + r.value;
    }
  }
}

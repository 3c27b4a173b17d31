/** Taking multiaddrs apart and resolving their DNS components
    (go-multiaddr/multiaddr.go and util.go; go-multiaddr-dns/resolve.go and util.go). */
module DnsResolution {
  import opened Options
  import opened Varints
  import opened Multiaddrs
  import T = MultiaddrText

  // ------------------------------------------------- encapsulation and back

  /** Components are compared by their bytes. */
  predicate Same(a: Multiaddr, b: Multiaddr) {
    |a| == |b| && forall i :: 0 <= i < |a| ==> a[i].bytes == b[i].bytes
  }

  /** `right` is found in `left` from position i on. */
  predicate MatchesAt(left: Multiaddr, right: Multiaddr, i: nat) {
    right != [] && i + |right| <= |left| && forall k :: 0 <= k < |right| ==> left[i + k].bytes == right[k].bytes
  }

  ghost predicate IsLastMatch(left: Multiaddr, right: Multiaddr, i: int) {
    && (i >= 0 ==> MatchesAt(left, right, i))
    && forall j :: i < j < |left| && 0 <= j ==> !MatchesAt(left, right, j)
  }

  method MatchHere(left: Multiaddr, right: Multiaddr, i: nat) returns (found: bool)
    requires i < |left|
    ensures found == MatchesAt(left, right, i)
  {
    found := false;
    for j := 0 to |right|
      invariant found == (j > 0) && i + j <= |left|
      invariant forall k :: 0 <= k < j ==> left[i + k].bytes == right[k].bytes
    {
      if |left| <= i + j {
        return false;
      }
      found := right[j].bytes == left[i + j].bytes;
      if !found {
        return false;
      }
    }
  }

  /** The last place below n where `right` is found, or -1. */
  function LastMatch(m: Multiaddr, right: Multiaddr, n: nat): (last: int)
    requires n <= |m|
    ensures -1 <= last < n
    ensures last >= 0 ==> MatchesAt(m, right, last)
    ensures forall j :: last < j < n && 0 <= j ==> !MatchesAt(m, right, j)
  {
    if n == 0 then -1 else if MatchesAt(m, right, n - 1) then n - 1 else LastMatch(m, right, n - 1)
  }

  /** Everything from the last place where `right` is found is cut off. */
  function Decapsulated(m: Multiaddr, right: Multiaddr): Multiaddr {
    var last := LastMatch(m, right, |m|);
    if last < 0 then m else m[..last]
  }

  lemma LastMatchUnique(m: Multiaddr, right: Multiaddr, i: int)
    requires -1 <= i < |m| || i == -1
    requires IsLastMatch(m, right, i)
    ensures i == LastMatch(m, right, |m|)
  {
    var last := LastMatch(m, right, |m|);
    hide MatchesAt;
  }

  /** `Decapsulate` with its two loops. */
  method Decapsulate(m: Multiaddr, right: Multiaddr) returns (r: Multiaddr)
    ensures r == Decapsulated(m, right)
  {
    var lastIndex := -1;
    for i := 0 to |m|
      invariant -1 <= lastIndex < i
      invariant lastIndex >= 0 ==> MatchesAt(m, right, lastIndex)
      invariant forall j :: lastIndex < j < i && 0 <= j ==> !MatchesAt(m, right, j)
    {
      var found := MatchHere(m, right, i);
      if found {
        lastIndex := i;
      }
    }
    LastMatchUnique(m, right, lastIndex);
    if lastIndex == 0 {
      return [];
    }
    if lastIndex < 0 {
      return m;
    }
    return m[..lastIndex];
  }

  /** A suffix is cut off, and nothing more, whatever occurs before it. */
  lemma DecapsulateSuffix(m: Multiaddr, right: Multiaddr, k: nat)
    requires k + |right| == |m| && Same(m[k..], right)
    ensures Decapsulated(m, right) == m[..k]
  {
    if right != [] {
      forall j | 0 <= j < |right| ensures m[k + j].bytes == right[j].bytes {
        assert m[k..][j] == m[k + j];
      }
      LastMatchUnique(m, right, k);
    } else {
      LastMatchUnique(m, right, -1);
      assert m[..k] == m;
    }
  }

  /** Decapsulating what was encapsulated returns the original, for all multiaddrs. */
  lemma DecapsulateEncapsulate(m: Multiaddr, o: Multiaddr)
    ensures Decapsulated(m + o, o) == m
  {
    assert (m + o)[|m|..] == o && (m + o)[..|m|] == m;
    DecapsulateSuffix(m + o, o, |m|);
  }

  /** Everything from the last place on where the other is found is cut off, also what follows it. */
  lemma DecapsulateAt(m: Multiaddr, o: Multiaddr, i: nat)
    requires i < |m| && IsLastMatch(m, o, i)
    ensures Decapsulated(m, o) == m[..i]
  {
    LastMatchUnique(m, o, i);
  }

  /** What is not found leaves the multiaddr as it is. */
  lemma DecapsulateNothing(m: Multiaddr, o: Multiaddr)
    requires forall j :: 0 <= j < |m| ==> !MatchesAt(m, o, j)
    ensures Decapsulated(m, o) == m
  {
    LastMatchUnique(m, o, -1);
  }

  /** Parsed components with the same bytes are the same. */
  lemma SameBytesSameComponents(reg: Registry, a: Multiaddr, b: Multiaddr)
    requires Same(a, b) && forall c :: c in a || c in b ==> Parsable(reg, c)
    ensures a == b
  {
    hide Parsable, ReadComponent;
    forall i | 0 <= i < |a| ensures a[i] == b[i] {
      assert a[i] in a && b[i] in b;
      ReadComponentOf(reg, a[i], []);
      ReadComponentOf(reg, b[i], []);
    }
  }

  // --------------------------------------------------------------- splitting

  /** `SplitFunc`: cut before the first component the callback accepts. */
  method SplitFunc(m: Multiaddr, f: Component -> bool) returns (pre: Multiaddr, post: Multiaddr)
    ensures m == pre + post
    ensures forall c :: c in pre ==> !f(c)
    ensures post != [] ==> f(post[0])
  {
    var idx := |m|;
    var i := 0;
    while i < |m| && idx == |m|
      invariant 0 <= i <= |m|
      invariant forall k :: 0 <= k < i && k < idx ==> !f(m[k])
      invariant idx == |m| || (0 <= idx < |m| && f(m[idx]) && idx == i - 1)
    {
      if f(m[i]) {
        idx := i;
      }
      i := i + 1;
    }
    pre, post := m[..idx], m[idx..];
  }

  /** `offset`: the callback counts down to the component where the split is. */
  method DropFront(m: Multiaddr, n: nat) returns (after: Multiaddr)
    ensures after == if n < |m| then m[n..] else []
  {
    var left, idx, i := n, |m|, 0;
    while i < |m| && idx == |m|
      invariant 0 <= i <= |m|
      invariant if idx == |m| then left == n - i else idx == n == i - 1
    {
      if left == 0 {
        idx := i;
      } else {
        left := left - 1;
      }
      i := i + 1;
    }
    after := m[idx..];
  }

  // ----------------------------------------------------------------- dnsaddr

  const MAX_RESOLVED := 100

  /** "dnsaddr=" */
  const TXT_PREFIX: Bytes := [100, 110, 115, 97, 100, 100, 114, 61]

  /** The address a TXT record offers for the given suffix, if it is a dnsaddr record that can be
      parsed and properly extends the suffix. */
  function Offer(parse: Bytes -> Option<Multiaddr>, record: Bytes, post: Multiaddr): (offer: Option<Multiaddr>)
    ensures offer.Some? ==> |offer.value| > |post| && Same(offer.value[|offer.value| - |post|..], post)
  {
    if !(TXT_PREFIX <= record) then None
    else
      match parse(record[|TXT_PREFIX|..])
      case None => None
      case Some(addr) =>
        if |addr| > |post| && Same(addr[|addr| - |post|..], post) then Some(addr) else None
  }

  function Offers(parse: Bytes -> Option<Multiaddr>, records: seq<Bytes>, post: Multiaddr): seq<Multiaddr> {
    if records == [] then []
    else
      var front := Offers(parse, records[..|records| - 1], post);
      match Offer(parse, records[|records| - 1], post)
      case None => front
      case Some(addr) => front + [addr]
  }

  /** A record is used for an address if it is a dnsaddr record of that address and the address is something,
      followed by the required suffix. */
  ghost predicate Uses(parse: Bytes -> Option<Multiaddr>, record: Bytes, post: Multiaddr, addr: Multiaddr) {
    && (exists text :: record == TXT_PREFIX + text && parse(text) == Some(addr))
    && exists tail: Multiaddr :: tail != [] && Same(addr, tail + post)
  }

  lemma OfferExactly(parse: Bytes -> Option<Multiaddr>, record: Bytes, post: Multiaddr, addr: Multiaddr)
    ensures Offer(parse, record, post) == Some(addr) <==> Uses(parse, record, post, addr)
  {
    if Offer(parse, record, post) == Some(addr) {
      OfferIsUsed(parse, record, post, addr);
    }
    if Uses(parse, record, post, addr) {
      UsedIsOffered(parse, record, post, addr);
    }
  }

  lemma OfferIsUsed(parse: Bytes -> Option<Multiaddr>, record: Bytes, post: Multiaddr, addr: Multiaddr)
    requires Offer(parse, record, post) == Some(addr)
    ensures Uses(parse, record, post, addr)
  {
    var k := |addr| - |post|;
    assert record == TXT_PREFIX + record[|TXT_PREFIX|..];
    SuffixSame(addr, k, post);
    hide Same;
    assert addr[..k] != [] && Same(addr, addr[..k] + post);
  }

  lemma UsedIsOffered(parse: Bytes -> Option<Multiaddr>, record: Bytes, post: Multiaddr, addr: Multiaddr)
    requires Uses(parse, record, post, addr)
    ensures Offer(parse, record, post) == Some(addr)
  {
    var text :| record == TXT_PREFIX + text && parse(text) == Some(addr);
    var tail: Multiaddr :| tail != [] && Same(addr, tail + post);
    assert record[|TXT_PREFIX|..] == text;
    SameSuffix(addr, tail, post);
    hide Same;
  }

  lemma SameSuffix(addr: Multiaddr, tail: Multiaddr, post: Multiaddr)
    requires Same(addr, tail + post)
    ensures |addr| == |tail| + |post| && Same(addr[|addr| - |post|..], post)
  {
    var k := |addr| - |post|;
    forall i | 0 <= i < |post| ensures addr[k..][i].bytes == post[i].bytes {
      assert (tail + post)[k + i] == post[i];
    }
  }

  lemma UsedOffer(parse: Bytes -> Option<Multiaddr>, record: Bytes, post: Multiaddr)
    ensures forall addr :: Uses(parse, record, post, addr) <==> Offer(parse, record, post) == Some(addr)
  {
    hide Uses, Offer;
    forall addr ensures Uses(parse, record, post, addr) <==> Offer(parse, record, post) == Some(addr) {
      OfferExactly(parse, record, post, addr);
    }
  }

  lemma SuffixSame(addr: Multiaddr, k: nat, post: Multiaddr)
    requires k + |post| == |addr| && Same(addr[k..], post)
    ensures Same(addr, addr[..k] + post)
  {
    var other := addr[..k] + post;
    forall i | 0 <= i < |addr| ensures addr[i].bytes == other[i].bytes {
      if i >= k {
        assert addr[k..][i - k] == addr[i];
      }
    }
  }

  ghost predicate Increasing(idx: seq<nat>) {
    forall i, j :: 0 <= i < j < |idx| ==> idx[i] < idx[j]
  }

  /** The addresses are those of the records that can be used, in the order of the records. */
  ghost predicate Picks(parse: Bytes -> Option<Multiaddr>, records: seq<Bytes>, post: Multiaddr, idx: seq<nat>,
                        addrs: seq<Multiaddr>)
  {
    && |idx| == |addrs| && Increasing(idx)
    && (forall k :: 0 <= k < |idx| ==> idx[k] < |records| && Uses(parse, records[idx[k]], post, addrs[k]))
    && forall i, addr :: 0 <= i < |records| && Uses(parse, records[i], post, addr) ==> i in idx
  }

  lemma {:induction false} OffersPick(parse: Bytes -> Option<Multiaddr>, records: seq<Bytes>, post: Multiaddr)
      returns (idx: seq<nat>)
    ensures Picks(parse, records, post, idx, Offers(parse, records, post))
  {
    hide Uses, Offer;
    if records == [] {
      idx := [];
    } else {
      var k := |records| - 1;
      idx := OffersPick(parse, records[..k], post);
      PickedNext(parse, records, post, idx, Offers(parse, records[..k], post));
      if Offer(parse, records[k], post).Some? {
        idx := idx + [k];
      }
    }
  }

  lemma PickedNext(parse: Bytes -> Option<Multiaddr>, records: seq<Bytes>, post: Multiaddr, idx: seq<nat>,
                   addrs: seq<Multiaddr>)
    requires records != [] && Picks(parse, records[..|records| - 1], post, idx, addrs)
    ensures var k := |records| - 1;
            match Offer(parse, records[k], post)
            case None => Picks(parse, records, post, idx, addrs)
            case Some(addr) => Picks(parse, records, post, idx + [k], addrs + [addr])
  {
    var k := |records| - 1;
    hide Uses, Offer;
    forall addr ensures Offer(parse, records[k], post) == Some(addr) <==> Uses(parse, records[k], post, addr) {
      OfferExactly(parse, records[k], post, addr);
    }
    var idx' := if Offer(parse, records[k], post).Some? then idx + [k] else idx;
    forall i, addr | 0 <= i < |records| && Uses(parse, records[i], post, addr) ensures i in idx' {
      if i < k {
        assert records[..k][i] == records[i];
      } else {
        assert Offer(parse, records[k], post) == Some(addr);
        assert idx'[|idx|] == k;
      }
    }
  }

  /** The resolved addresses without the suffix. */
  ghost predicate Heads(heads: seq<Multiaddr>, offers: seq<Multiaddr>, post: Multiaddr) {
    && |heads| == |offers|
    && forall i :: 0 <= i < |heads| ==>
         |offers[i]| > |post| && heads[i] == offers[i][..|offers[i]| - |post|] && Same(offers[i][|heads[i]|..], post)
  }

  lemma HeadsNext(heads: seq<Multiaddr>, offers: seq<Multiaddr>, post: Multiaddr, addr: Multiaddr)
    requires Heads(heads, offers, post) && |addr| > |post| && Same(addr[|addr| - |post|..], post)
    ensures Heads(heads + [addr[..|addr| - |post|]], offers + [addr], post)
  {
  }

  /** What is left of an address without the required suffix, or nil if it does not properly extend it. */
  method CutSuffix(addr: Multiaddr, post: Multiaddr) returns (head: Multiaddr)
    ensures head == if |addr| > |post| && Same(addr[|addr| - |post|..], post) then addr[..|addr| - |post|] else []
  {
    if post == [] {
      assert addr[|addr|..] == [] && addr[..|addr|] == addr;
      return addr;
    }
    if |addr| < |post| {
      return [];
    }
    var after := DropFront(addr, |addr| - |post|);
    if !Same(post, after) {
      return [];
    }
    assert Same(addr[|addr| - |post|..], post);
    head := Decapsulate(addr, post);
    DecapsulateSuffix(addr, post, |addr| - |post|);
  }

  /** What a record yields: the address it is used for, without the suffix, or nothing. */
  ghost predicate Yields(parse: Bytes -> Option<Multiaddr>, record: Bytes, post: Multiaddr, head: Multiaddr) {
    && (forall addr :: Uses(parse, record, post, addr) ==>
          head != [] && |addr| > |post| && head == addr[..|addr| - |post|])
    && (head != [] ==> exists addr :: Uses(parse, record, post, addr))
  }

  lemma OfferYields(parse: Bytes -> Option<Multiaddr>, record: Bytes, post: Multiaddr, head: Multiaddr)
    requires var offer := Offer(parse, record, post);
             if offer.None? then head == [] else head == offer.value[..|offer.value| - |post|]
    ensures Yields(parse, record, post, head)
  {
    UsedOffer(parse, record, post);
    hide Uses, Same;
    if head != [] {
      assert Uses(parse, record, post, Offer(parse, record, post).value);
    }
  }

  /** One TXT record, as the loop treats it: nil if it is skipped. */
  method ReadRecord(parse: Bytes -> Option<Multiaddr>, record: Bytes, post: Multiaddr) returns (head: Multiaddr)
    ensures var offer := Offer(parse, record, post);
            if offer.None? then head == [] else head == offer.value[..|offer.value| - |post|]
    ensures Yields(parse, record, post, head)
  {
    hide Same, Yields;
    head := [];
    if TXT_PREFIX <= record {
      var parsed := parse(record[|TXT_PREFIX|..]);
      if parsed.Some? {
        head := CutSuffix(parsed.value, post);
      }
    }
    OfferYields(parse, record, post, head);
  }

  method ReadRecords(parse: Bytes -> Option<Multiaddr>, records: seq<Bytes>, post: Multiaddr)
      returns (resolved: seq<Multiaddr>)
    ensures Heads(resolved, Offers(parse, records, post), post)
  {
    hide Offer, Same;
    resolved := [];
    for i := 0 to |records|
      invariant Heads(resolved, Offers(parse, records[..i], post), post)
    {
      assert records[..i + 1][..i] == records[..i];
      var head := ReadRecord(parse, records[i], post);
      if head != [] {
        HeadsNext(resolved, Offers(parse, records[..i], post), post, Offer(parse, records[i], post).value);
        resolved := resolved + [head];
      }
    }
    assert records[..|records|] == records;
  }

  function Cut(s: seq<Multiaddr>): seq<Multiaddr> {
    if |s| > MAX_RESOLVED then s[..MAX_RESOLVED] else s
  }

  /** What both branches end with: at most a hundred addresses, put between prefix and suffix. */
  method Wrap(pre: Multiaddr, resolved: seq<Multiaddr>, post: Multiaddr) returns (out: seq<Multiaddr>)
    ensures |out| == |Cut(resolved)|
    ensures forall i :: 0 <= i < |out| ==> out[i] == pre + resolved[i] + post
  {
    var s := resolved;
    if |s| > MAX_RESOLVED {
      s := s[..MAX_RESOLVED];
    }
    out := s;
    if pre != [] {
      for i := 0 to |s|
        invariant |out| == |s|
        invariant forall k :: 0 <= k < i ==> out[k] == pre + s[k]
        invariant forall k :: i <= k < |s| ==> out[k] == s[k]
      {
        out := out[i := pre + s[i]];
      }
    }
    assert forall k :: 0 <= k < |s| ==> out[k] == pre + s[k];
    if post != [] {
      ghost var before := out;
      for i := 0 to |s|
        invariant |out| == |s|
        invariant forall k :: 0 <= k < i ==> out[k] == before[k] + post
        invariant forall k :: i <= k < |s| ==> out[k] == before[k]
      {
        out := out[i := out[i] + post];
      }
    }
  }

  /** Resolving /.../dnsaddr/domain/...: the result is the prefix in front of each offered address, in the
      order of the records and cut at a hundred. */
  method ResolveDnsaddr(parse: Bytes -> Option<Multiaddr>, pre: Multiaddr, records: seq<Bytes>, post: Multiaddr)
      returns (out: seq<Multiaddr>)
    ensures var offers := Cut(Offers(parse, records, post));
            |out| == |offers| && forall i :: 0 <= i < |out| ==> Same(out[i], pre + offers[i])
    ensures exists idx, addrs ::
              && Picks(parse, records, post, idx, addrs)
              && |out| == (if |addrs| > 100 then 100 else |addrs|)
              && forall i :: 0 <= i < |out| ==> Same(out[i], pre + addrs[i])
  {
    hide Picks;
    ghost var idx := OffersPick(parse, records, post);
    var resolved := ReadRecords(parse, records, post);
    out := Wrap(pre, resolved, post);
    ghost var offers := Offers(parse, records, post);
    forall i | 0 <= i < |out| ensures Same(out[i], pre + offers[i]) {
      HeadAndSuffix(pre, resolved[i], offers[i], post);
    }
  }

  lemma HeadAndSuffix(pre: Multiaddr, head: Multiaddr, offer: Multiaddr, post: Multiaddr)
    requires |offer| >= |post| && head == offer[..|offer| - |post|] && Same(offer[|head|..], post)
    ensures Same(pre + head + post, pre + offer)
  {
    var a, b := pre + head + post, pre + offer;
    assert |a| == |b|;
    forall i | 0 <= i < |a| ensures a[i].bytes == b[i].bytes {
      if i >= |pre| + |head| {
        assert offer[|head|..][i - |pre| - |head|] == b[i];
        assert post[i - |pre| - |head|] == a[i];
      }
    }
  }

  /** With a parser for multiaddrs of a sound registry the addresses are not only the same in bytes. */
  lemma ResolvedIsExact(reg: Registry, out: Multiaddr, pre: Multiaddr, offer: Multiaddr)
    requires Same(out, pre + offer) && forall c :: c in out || c in pre || c in offer ==> Parsable(reg, c)
    ensures out == pre + offer
  {
    SameBytesSameComponents(reg, out, pre + offer);
  }

  // ------------------------------------------------------ choosing a resolver

  const DOT: Byte := 46

  /** A place where a label of the name begins. */
  predicate LabelAt(name: Bytes, k: nat) {
    k < |name| && (k == 0 || name[k - 1] == DOT)
  }

  method IndexOfDot(s: Bytes, start: nat) returns (i: int)
    requires start <= |s|
    ensures i == -1 <==> DOT !in s[start..]
    ensures i != -1 ==> start <= i < |s| && s[i] == DOT && DOT !in s[start..i]
  {
    i := start;
    while i < |s|
      invariant start <= i <= |s| && DOT !in s[start..i]
    {
      if s[i] == DOT {
        return;
      }
      assert s[start..i + 1] == s[start..i] + [s[i]];
      i := i + 1;
    }
    assert s[start..i] == s[start..];
    i := -1;
  }

  /** The longest parent domain of the name, itself included, that has a resolver begins at k. */
  ghost predicate BestAt<R>(custom: map<Bytes, R>, name: Bytes, k: nat) {
    && LabelAt(name, k) && name[k..] in custom
    && forall j: nat :: j < k && LabelAt(name, j) ==> name[j..] !in custom
  }

  /** The resolver for the longest parent domain that begins at k or later, if there is one. */
  function Chosen<R>(custom: map<Bytes, R>, default_: R, name: Bytes, k: nat): R
    requires k <= |name|
    decreases |name| - k
  {
    if k == |name| then default_
    else if LabelAt(name, k) && name[k..] in custom then custom[name[k..]]
    else Chosen(custom, default_, name, k + 1)
  }

  lemma {:induction false} ChosenIsBest<R>(custom: map<Bytes, R>, default_: R, name: Bytes, i: nat, k: nat)
    requires i <= k && BestAt(custom, name, k)
    ensures Chosen(custom, default_, name, i) == custom[name[k..]]
    decreases k - i
  {
    if i < k {
      ChosenIsBest(custom, default_, name, i + 1, k);
    }
  }

  lemma {:induction false} ChosenByDefault<R>(custom: map<Bytes, R>, default_: R, name: Bytes, i: nat)
    requires i <= |name| && forall j: nat :: LabelAt(name, j) ==> name[j..] !in custom
    ensures Chosen(custom, default_, name, i) == default_
    decreases |name| - i
  {
    if i < |name| {
      ChosenByDefault(custom, default_, name, i + 1);
    }
  }

  const BACKSLASH: Byte := 92

  function Backslashes(s: Bytes): nat {
    if s == [] || s[|s| - 1] != BACKSLASH then 0 else 1 + Backslashes(s[..|s| - 1])
  }

  /** A fully qualified name ends with a dot that is not escaped; the dot is added to other names. */
  function Fqdn(domain: Bytes): (fqdn: Bytes)
    ensures fqdn != [] && fqdn[|fqdn| - 1] == DOT
  {
    if domain != [] && domain[|domain| - 1] == DOT && Backslashes(domain[..|domain| - 1]) % 2 == 0 then domain
    else domain + [DOT]
  }

  /** Without backslashes, the name is fully qualified exactly if it ends with a dot. */
  lemma FqdnPlain(domain: Bytes)
    requires BACKSLASH !in domain
    ensures Fqdn(domain) == if domain != [] && domain[|domain| - 1] == DOT then domain else domain + [DOT]
  {
    if domain != [] {
      var front := domain[..|domain| - 1];
      assert front != [] ==> front[|front| - 1] == domain[|domain| - 2];
    }
  }

  /** `getResolver`: among the resolvers registered for the name or a parent domain the one for the
      longest name is taken, and the default one if there is none. */
  method GetResolver<R>(custom: map<Bytes, R>, default_: R, fqdn: Bytes) returns (r: R)
    requires fqdn != []  // a fully qualified name has at least the root dot
    ensures forall k: nat :: BestAt(custom, fqdn, k) ==> r == custom[fqdn[k..]]
    ensures (forall j: nat :: LabelAt(fqdn, j) ==> fqdn[j..] !in custom) ==> r == default_
    ensures (exists j: nat :: LabelAt(fqdn, j) && fqdn[j..] in custom) ==> exists k: nat :: BestAt(custom, fqdn, k)
    ensures r == Chosen(custom, default_, fqdn, 0)
  {
    hide Chosen;
    assert fqdn[0..] == fqdn;
    if fqdn in custom {
      assert BestAt(custom, fqdn, 0);
      ChosenIsBest(custom, default_, fqdn, 0, 0);
      return custom[fqdn];
    }
    var at := 0;
    var i := IndexOfDot(fqdn, 0);
    while i != -1
      invariant 0 <= at <= |fqdn|
      invariant i == -1 <==> DOT !in fqdn[at..]
      invariant i != -1 ==> at <= i < |fqdn| && fqdn[i] == DOT && DOT !in fqdn[at..i]
      invariant forall j: nat :: j <= at && j < |fqdn| && LabelAt(fqdn, j) ==> fqdn[j..] !in custom
      decreases |fqdn| - at
    {
      NoLabelBetween(fqdn, at, i);
      at := i + 1;
      if at == |fqdn| {
        break;
      }
      if fqdn[at..] in custom {
        assert BestAt(custom, fqdn, at);
        ChosenIsBest(custom, default_, fqdn, 0, at);
        return custom[fqdn[at..]];
      }
      i := IndexOfDot(fqdn, at);
    }
    if i == -1 {
      NoLabelAfter(fqdn, at);
    }
    ChosenByDefault(custom, default_, fqdn, 0);
    return default_;
  }

  lemma NoLabelBetween(name: Bytes, at: nat, i: nat)
    requires at <= i < |name| && DOT !in name[at..i]
    ensures forall j: nat :: at < j <= i ==> !LabelAt(name, j)
  {
    forall j: nat | at < j <= i ensures !LabelAt(name, j) {
      assert name[at..i][j - 1 - at] == name[j - 1];
    }
  }

  lemma NoLabelAfter(name: Bytes, at: nat)
    requires at <= |name| && DOT !in name[at..]
    ensures forall j: nat :: at < j < |name| ==> !LabelAt(name, j)
  {
    forall j: nat | at < j < |name| ensures !LabelAt(name, j) {
      assert name[at..][j - 1 - at] == name[j - 1];
    }
  }

  // -------------------------------------------------------------- resolving

  const DNS := 53
  const DNS4 := 54
  const DNS6 := 55
  const DNSADDR := 56

  function IsDns(): Component -> bool {
    (c: Component) => c.protocol.code in {DNS, DNS4, DNS6, DNSADDR}
  }

  lemma DnsCodes(c: Component)
    ensures IsDns()(c) <==> 53 <= c.protocol.code <= 56
  {
  }

  /** An IP record: whether it is IPv4, and the multiaddr made of it, if that can be parsed. */
  datatype IpRecord = IpRecord(v4: bool, addr: Option<Multiaddr>)

  /** What a resolver answers for a domain; None is an error. */
  datatype Resolver = Resolver(lookupTXT: Bytes -> Option<seq<Bytes>>, lookupIPAddr: Bytes -> Option<seq<IpRecord>>)

  /** "_dnsaddr." */
  const DNSADDR_LABEL: Bytes := [95, 100, 110, 115, 97, 100, 100, 114, 46]

  predicate Wanted(code: int, r: IpRecord) {
    if r.v4 then code != DNS6 else code != DNS4
  }

  /** The addresses of the wanted records in order; one that cannot be converted fails the whole. */
  function IpAddrs(code: int, records: seq<IpRecord>): Option<seq<Multiaddr>> {
    if records == [] then Some([])
    else
      match IpAddrs(code, records[..|records| - 1])
      case None => None
      case Some(front) =>
        var r := records[|records| - 1];
        if !Wanted(code, r) then Some(front)
        else if r.addr.None? then None
        else Some(front + [r.addr.value])
  }

  /** The addresses are those of the records of the right kind, in their order: IPv4 unless the protocol is dns6,
      IPv6 unless it is dns4. */
  ghost predicate IpPicks(code: int, records: seq<IpRecord>, idx: seq<nat>, addrs: seq<Multiaddr>) {
    && |idx| == |addrs| && Increasing(idx)
    && (forall k :: 0 <= k < |idx| ==> idx[k] < |records| && records[idx[k]].addr == Some(addrs[k]))
    && forall i :: i in idx <==> 0 <= i < |records| && (if records[i].v4 then code != DNS6 else code != DNS4)
  }

  lemma {:induction false} IpAddrsPick(code: int, records: seq<IpRecord>) returns (idx: seq<nat>)
    requires IpAddrs(code, records).Some?
    ensures IpPicks(code, records, idx, IpAddrs(code, records).value)
  {
    if records == [] {
      idx := [];
    } else {
      var k := |records| - 1;
      idx := IpAddrsPick(code, records[..k]);
      IpPickedNext(code, records, idx, IpAddrs(code, records[..k]).value);
      hide IpPicks;
      if Wanted(code, records[k]) {
        idx := idx + [k];
      }
    }
  }

  lemma IpPickedNext(code: int, records: seq<IpRecord>, idx: seq<nat>, addrs: seq<Multiaddr>)
    requires records != [] && IpPicks(code, records[..|records| - 1], idx, addrs)
    ensures var r := records[|records| - 1];
            && (!Wanted(code, r) ==> IpPicks(code, records, idx, addrs))
            && (Wanted(code, r) && r.addr.Some? ==>
                  IpPicks(code, records, idx + [|records| - 1], addrs + [r.addr.value]))
  {
    var k := |records| - 1;
    var idx' := idx + [k];
    assert idx'[|idx|] == k && forall j :: 0 <= j < |idx| ==> idx'[j] == idx[j];
    assert forall i :: 0 <= i < k ==> records[..k][i] == records[i];
  }

  /** They are found if and only if every record of the right kind can be converted. */
  lemma {:induction false} IpAddrsFail(code: int, records: seq<IpRecord>)
    ensures IpAddrs(code, records).None? <==>
            exists i :: 0 <= i < |records| && records[i].addr.None?
              && (if records[i].v4 then code != DNS6 else code != DNS4)
  {
    if records != [] {
      var k := |records| - 1;
      IpAddrsFail(code, records[..k]);
      assert forall i :: 0 <= i < k ==> records[..k][i] == records[i];
    }
  }

  method ReadIps(code: int, records: seq<IpRecord>) returns (r: Option<seq<Multiaddr>>)
    ensures r == IpAddrs(code, records)
  {
    var resolved := [];
    for i := 0 to |records|
      invariant IpAddrs(code, records[..i]) == Some(resolved)
    {
      assert records[..i + 1][..i] == records[..i];
      var record := records[i];
      if (record.v4 && code == DNS6) || (!record.v4 && code == DNS4) {
        continue;
      }
      if record.addr.None? {
        IpErrorStays(code, records, i + 1, |records|);
        assert records[..|records|] == records;
        return None;
      }
      resolved := resolved + [record.addr.value];
    }
    assert records[..|records|] == records;
    return Some(resolved);
  }

  lemma {:induction false} IpErrorStays(code: int, records: seq<IpRecord>, i: nat, j: nat)
    requires i <= j <= |records| && IpAddrs(code, records[..i]).None?
    ensures IpAddrs(code, records[..j]).None?
    decreases j
  {
    if i < j {
      IpErrorStays(code, records, i, j - 1);
      assert records[..j][..j - 1] == records[..j - 1];
    }
  }

  /** What is resolved: for a dnsaddr the offered addresses themselves, for other names the IP addresses
      in front of what follows the name. */
  function Resolved(parse: Bytes -> Option<Multiaddr>, rslv: Resolver, domain: Bytes, code: int, post: Multiaddr):
      Option<seq<Multiaddr>>
  {
    if code == DNSADDR then
      var txt := rslv.lookupTXT(DNSADDR_LABEL + domain);
      if txt.None? then None else Some(Cut(Offers(parse, txt.value, post)))
    else if rslv.lookupIPAddr(domain).None? then None
    else
      match IpAddrs(code, rslv.lookupIPAddr(domain).value)
      case None => None
      case Some(addrs) => Some(seq(|Cut(addrs)|, i requires 0 <= i < |Cut(addrs)| => addrs[i] + post))
  }

  /** What resolving gives, said of the answers themselves: for a dnsaddr the addresses of the usable records of
      _dnsaddr.domain, for other names each IP address of the right kind with what follows the name behind it;
      at most a hundred, and none at all if the lookup or a conversion fails. */
  lemma ResolvedExactly(parse: Bytes -> Option<Multiaddr>, rslv: Resolver, domain: Bytes, code: int, post: Multiaddr)
    ensures var txt, ips := rslv.lookupTXT(DNSADDR_LABEL + domain), rslv.lookupIPAddr(domain);
            match Resolved(parse, rslv, domain, code, post)
            case None => if code == DNSADDR then txt.None? else ips.None? || IpAddrs(code, ips.value).None?
            case Some(r) =>
              exists idx, addrs ::
                && |r| == (if |addrs| > 100 then 100 else |addrs|)
                && (if code == DNSADDR
                    then txt.Some? && Picks(parse, txt.value, post, idx, addrs) && r == addrs[..|r|]
                    else ips.Some? && IpPicks(code, ips.value, idx, addrs)
                         && forall i :: 0 <= i < |r| ==> r[i] == addrs[i] + post)
  {
    hide Picks, IpPicks, Offers, IpAddrs;
    var txt, ips := rslv.lookupTXT(DNSADDR_LABEL + domain), rslv.lookupIPAddr(domain);
    if code == DNSADDR {
      if txt.Some? {
        var idx := OffersPick(parse, txt.value, post);
        var addrs := Offers(parse, txt.value, post);
        assert Cut(addrs) == addrs[..|Cut(addrs)|];
      }
    } else if ips.Some? && IpAddrs(code, ips.value).Some? {
      var idx := IpAddrsPick(code, ips.value);
      var addrs := IpAddrs(code, ips.value).value;
      assert IpPicks(code, ips.value, idx, addrs);
    }
  }

  /** Where the first DNS component is, or the length if there is none. */
  function FirstDns(m: Multiaddr): (n: nat)
    ensures n <= |m| && (forall i :: 0 <= i < n ==> !IsDns()(m[i])) && (n < |m| ==> IsDns()(m[n]))
  {
    if m == [] || IsDns()(m[0]) then 0 else 1 + FirstDns(m[1..])
  }

  lemma FirstDnsUnique(m: Multiaddr, n: nat)
    requires n <= |m| && (forall i :: 0 <= i < n ==> !IsDns()(m[i])) && (n < |m| ==> IsDns()(m[n]))
    ensures n == FirstDns(m)
  {
    var k := FirstDns(m);
    hide FirstDns, IsDns;
  }

  /** Only the first DNS component is resolved, by the resolver for the longest parent domain of its name;
      what comes before it stays in front of every result. */
  method Resolve(parse: Bytes -> Option<Multiaddr>, custom: map<Bytes, Resolver>, default_: Resolver, m: Multiaddr)
      returns (r: Option<seq<Multiaddr>>)
    ensures FirstDns(m) == |m| ==> r == Some(if m == [] then [] else [m])
    ensures FirstDns(m) < |m| ==>
              var n := FirstDns(m);
              var domain := T.ValueText(m[n]);
              var rslv := Chosen(custom, default_, Fqdn(domain), 0);
              var resolved := Resolved(parse, rslv, domain, m[n].protocol.code, m[n + 1..]);
              && (r.None? <==> resolved.None?)
              && (r.Some? ==> |r.value| == |resolved.value|)
              && (r.Some? ==> forall i :: 0 <= i < |r.value| ==> Same(r.value[i], m[..n] + resolved.value[i]))
  {
    hide FirstDns, Chosen, Fqdn, T.ValueText;
    if m == [] {
      return Some([]);
    }
    var pre, maddr := SplitFunc(m, IsDns());
    FirstDnsUnique(m, |pre|);
    assert m[..|pre|] == pre;
    if maddr == [] {
      assert pre == m;
      return Some([pre]);
    }
    var resolve, post := maddr[0], maddr[1..];
    assert m[|pre|] == resolve && m[|pre| + 1..] == post;
    var domain := T.ValueText(resolve);
    var rslv := GetResolver(custom, default_, Fqdn(domain));
    if resolve.protocol.code == DNSADDR {
      var txt := rslv.lookupTXT(DNSADDR_LABEL + domain);
      if txt.None? {
        return None;
      }
      var out := ResolveDnsaddr(parse, pre, txt.value, post);
      return Some(out);
    }
    var ips := rslv.lookupIPAddr(domain);
    if ips.None? {
      return None;
    }
    var addrs := ReadIps(resolve.protocol.code, ips.value);
    if addrs.None? {
      return None;
    }
    var out := Wrap(pre, addrs.value, post);
    assert forall i :: 0 <= i < |out| ==> pre + addrs.value[i] + post == pre + (addrs.value[i] + post);
    return Some(out);
  }
}

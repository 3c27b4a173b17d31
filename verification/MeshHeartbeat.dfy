/** What one heartbeat does to the mesh of one bitmask
    (go-libp2p-blossomsub/blossomsub.go, the mesh loop of heartbeat). */
module MeshHeartbeat {
  import opened Identifiers
  import opened SeqFacts
  import opened Sorting
  import opened Bitmasks
  import opened PeerSelection
  import MeshCut

  /** The router's parameters and score thresholds; intervals are in nanoseconds. */
  datatype Params = Params(
    D: nat, Dlo: nat, Dhi: nat, Dscore: nat, Dout: nat,
    opportunisticGraftPeers: nat, opportunisticGraftTicks: nat, opportunisticGraftThreshold: real,
    pruneBackoff: int, unsubscribeBackoff: int, graftFloodThreshold: int, fanoutTTL: int,
    doPX: bool, acceptPXThreshold: real, publishThreshold: real)

  ghost predicate Sane(c: Params) {
    && 0 < c.Dlo <= c.D <= c.Dhi && c.Dout <= c.D && c.Dscore <= c.D
    && 0 < c.opportunisticGraftPeers && 0 < c.opportunisticGraftTicks
  }

  /** The backoff entries of one bitmask: when each peer may be grafted again. */
  type Expiries = map<PeerId, int>

  /** `doAddBackoff`: an entry is only ever moved to a later time. */
  function AddExpiry(bo: Expiries, p: PeerId, expire: int): (bo': Expiries) {
    if p in bo && bo[p] >= expire then bo else bo[p := expire]
  }

  /** Exactly the entries of `ps` were added or raised, by backing off `interval` from some instant
      between t0 and t1. */
  ghost predicate Raised(bo: Expiries, bo': Expiries, ps: set<PeerId>, t0: int, t1: int, interval: int) {
    && t0 <= t1
    && bo'.Keys == bo.Keys + ps
    && (forall p :: p in bo && p !in ps ==> bo'[p] == bo[p])
    && (forall p :: p in ps ==> bo'[p] >= t0 + interval && (bo'[p] <= t1 + interval || (p in bo && bo'[p] == bo[p])))
    && (forall p :: p in bo && p in ps ==> bo'[p] >= bo[p])
  }

  lemma RaisedOneMore(bo: Expiries, bo1: Expiries, ps: set<PeerId>, p: PeerId, t0: int, t1: int, t: int, interval: int)
    requires Raised(bo, bo1, ps, t0, t1, interval) && t1 <= t && p !in ps
    ensures Raised(bo, AddExpiry(bo1, p, t + interval), ps + {p}, t0, t, interval)
  {
  }

  lemma RaisedTwice(bo: Expiries, bo1: Expiries, bo2: Expiries, ps: set<PeerId>, qs: set<PeerId>,
                    t0: int, t1: int, t2: int, interval: int)
    requires Raised(bo, bo1, ps, t0, t1, interval) && Raised(bo1, bo2, qs, t1, t2, interval) && ps !! qs
    ensures Raised(bo, bo2, ps + qs, t0, t2, interval)
  {
  }

  /** The mesh of one bitmask while the heartbeat works on it: members, backoff entries, clock, the
      scores cached so far, and who was grafted and pruned in this heartbeat. */
  datatype Mesh = Mesh(
    peers: set<PeerId>, bo: Expiries, now: int, scores: map<PeerId, real>, grafted: set<PeerId>, pruned: set<PeerId>)

  ghost predicate Cached(m: Mesh, score: PeerId -> real) {
    && (forall p :: p in m.scores ==> m.scores[p] == score(p))
    && m.peers <= m.scores.Keys
  }

  /** No direct peer is grafted, and nobody who does not speak the mesh protocol. */
  ghost predicate Proper(e: Env, grafted: set<PeerId>) {
    grafted !! e.direct && grafted <= e.meshCapable
  }

  ghost predicate AllNonNegative(peers: set<PeerId>, score: PeerId -> real) {
    forall p :: p in peers ==> score(p) >= 0.0
  }

  /** The bookkeeping that every phase keeps, relative to the start `m0` of the heartbeat. */
  ghost predicate Books(c: Params, m0: Mesh, m: Mesh) {
    && m.pruned <= m0.peers
    && m.grafted !! m0.peers
    && m.peers == m0.peers - m.pruned + m.grafted
    && Raised(m0.bo, m.bo, m.pruned, m0.now, m.now, c.pruneBackoff)
    && m.grafted !! m.bo.Keys
  }

  // ------------------------------------------------------------- the filters

  function Candidate(e: Env, peers: set<PeerId>, bo: Expiries, score: PeerId -> real): PeerId -> bool {
    p => p !in peers && p !in bo && p !in e.direct && score(p) >= 0.0
  }

  function OutboundCandidate(e: Env, peers: set<PeerId>, bo: Expiries, score: PeerId -> real): PeerId -> bool {
    p => p !in peers && p !in bo && p !in e.direct && p in e.outbound && score(p) >= 0.0
  }

  function BetterCandidate(e: Env, m: Mesh, score: PeerId -> real, median: real): PeerId -> bool {
    p => p !in m.peers && p !in m.bo && p !in e.direct && score(p) > median
  }

  function HigherScore(score: PeerId -> real): (PeerId, PeerId) -> bool {
    (p: PeerId, q: PeerId) => score(p) >= score(q)
  }

  function LowerScore(score: PeerId -> real): (PeerId, PeerId) -> bool {
    (p: PeerId, q: PeerId) => score(p) <= score(q)
  }

  // -------------------------------------------------------------- the phases

  method Advance(now: int) returns (t: int)
    ensures t >= now
  {
    t := *;
    t := if t < now then now else t;
  }

  /** The closure `prunePeer` of the code, at instant t. */
  function Prune(c: Params, m: Mesh, p: PeerId, t: int): Mesh {
    m.(peers := m.peers - {p}, bo := AddExpiry(m.bo, p, t + c.pruneBackoff), now := t, pruned := m.pruned + {p})
  }

  /** The new state of the mesh after pruning all of `ps`. */
  ghost predicate PrunedAll(c: Params, m: Mesh, m': Mesh, ps: set<PeerId>) {
    && m'.peers == m.peers - ps && m'.pruned == m.pruned + ps
    && m'.grafted == m.grafted && m'.scores == m.scores
    && Raised(m.bo, m'.bo, ps, m.now, m'.now, c.pruneBackoff)
  }

  lemma PrunedNone(c: Params, m: Mesh)
    ensures PrunedAll(c, m, m, {})
  {
  }

  lemma PrunedOneMore(c: Params, m: Mesh, m1: Mesh, ps: set<PeerId>, p: PeerId, t: int)
    requires PrunedAll(c, m, m1, ps) && p !in ps && t >= m1.now
    ensures PrunedAll(c, m, Prune(c, m1, p, t), ps + {p})
  {
    RaisedOneMore(m.bo, m1.bo, ps, p, m.now, m1.now, t, c.pruneBackoff);
  }

  method PruneAll(c: Params, m: Mesh, ps: set<PeerId>) returns (m': Mesh)
    ensures PrunedAll(c, m, m', ps)
  {
    hide Raised, AddExpiry;
    m' := m;
    PrunedNone(c, m);
    var rest, done := ps, {};
    while rest != {}
      invariant rest !! done && rest + done == ps && PrunedAll(c, m, m', done)
      decreases |rest|
    {
      var p :| p in rest;
      var t := Advance(m'.now);
      PrunedOneMore(c, m, m', done, p, t);
      m' := Prune(c, m', p, t);
      rest, done := rest - {p}, done + {p};
    }
  }

  /** The closure `graftPeer`, applied to all of `sel`. */
  function Graft(m: Mesh, sel: set<PeerId>, scores: map<PeerId, real>): Mesh {
    m.(peers := m.peers + sel, grafted := m.grafted + sel, scores := scores)
  }

  lemma GraftNone(m: Mesh)
    ensures Graft(m, {}, m.scores) == m
  {
  }

  lemma GraftOnlyAdds(m: Mesh, sel: set<PeerId>, scores: map<PeerId, real>)
    ensures var m' := Graft(m, sel, scores);
            m.peers <= m'.peers && m'.pruned == m.pruned && m'.bo == m.bo
  {
  }

  method GraftAll(m: Mesh, sel: seq<PeerId>, score: PeerId -> real) returns (m': Mesh)
    requires Cached(m, score)
    ensures m' == Graft(m, Elems(sel), m'.scores)
    ensures Cached(m', score)
  {
    m' := m;
    for i := 0 to |sel|
      invariant m' == Graft(m, Elems(sel[..i]), m'.scores)
      invariant Cached(m', score)
    {
      assert sel[..i + 1] == sel[..i] + [sel[i]];
      Snoc(sel[..i], sel[i]);
      m' := m'.(peers := m'.peers + {sel[i]}, grafted := m'.grafted + {sel[i]},
                scores := m'.scores[sel[i] := score(sel[i])]);
    }
    assert sel[..|sel|] == sel;
  }

  lemma AllElems(plst: seq<PeerId>, capable: set<PeerId>, ok: PeerId -> bool)
    requires forall p :: p in plst ==> ok(p) && p in capable
    ensures Elems(plst) <= capable && forall p :: p in Elems(plst) ==> ok(p)
  {
  }

  /** Choose up to `count` peers that pass the filter and graft them. */
  method GraftSome(e: Env, b: Bitmask, m: Mesh, count: nat, ok: PeerId -> bool, score: PeerId -> real)
      returns (m': Mesh, ghost sel: set<PeerId>)
    requires Cached(m, score)
    ensures m' == Graft(m, sel, m'.scores) && Cached(m', score)
    ensures IsSelection(sel, Pool(e, Slices(b), ok), count)
    ensures forall p :: p in sel ==> ok(p)
    ensures sel <= e.meshCapable
  {
    hide Pool, Cached, IsSelection, Graft, Slices, Elems, NoDup;
    var plst := GetPeers(e, b, count, ok);
    AllElems(plst, e.meshCapable, ok);
    m' := GraftAll(m, plst, score);
    sel := Elems(plst);
  }

  method DropNegative(c: Params, m: Mesh, score: PeerId -> real) returns (m': Mesh)
    requires m.scores == map[]
    ensures PrunedAll(c, m.(scores := m'.scores), m', set p | p in m.peers && score(p) < 0.0)
    ensures Cached(m', score) && AllNonNegative(m'.peers, score)
  {
    m' := m.(scores := map p | p in m.peers :: score(p));
    m' := PruneAll(c, m', set p | p in m.peers && score(p) < 0.0);
  }

  /** Too few members: graft up to D of the candidates. */
  method FillUp(c: Params, e: Env, b: Bitmask, m: Mesh, score: PeerId -> real)
      returns (m': Mesh, ghost sel: set<PeerId>)
    requires Sane(c) && Cached(m, score)
    ensures m' == Graft(m, sel, m'.scores) && Cached(m', score)
    ensures if |m.peers| < c.Dlo
            then IsSelection(sel, Pool(e, Slices(b), Candidate(e, m.peers, m.bo, score)), c.D - |m.peers|)
            else sel == {}
    ensures sel <= e.meshCapable && forall p :: p in sel ==> Candidate(e, m.peers, m.bo, score)(p)
  {
    hide Pool, Cached, IsSelection, Candidate, Graft, Slices, Elems, NoDup;
    GraftNone(m);
    m', sel := m, {};
    if |m.peers| < c.Dlo {
      m', sel := GraftSome(e, b, m, c.D - |m.peers|, Candidate(e, m.peers, m.bo, score), score);
    }
  }

  /** Enough members but too few outbound ones: graft outbound candidates. */
  method AddOutbound(c: Params, e: Env, b: Bitmask, m: Mesh, score: PeerId -> real)
      returns (m': Mesh, ghost sel: set<PeerId>)
    requires Sane(c) && Cached(m, score)
    ensures m' == Graft(m, sel, m'.scores) && Cached(m', score)
    ensures if |m.peers| >= c.Dlo && |m.peers * e.outbound| < c.Dout
            then IsSelection(sel, Pool(e, Slices(b), OutboundCandidate(e, m.peers, m.bo, score)),
                             c.Dout - |m.peers * e.outbound|)
            else sel == {}
    ensures sel <= e.meshCapable && forall p :: p in sel ==> OutboundCandidate(e, m.peers, m.bo, score)(p)
  {
    hide Pool, Cached, IsSelection, OutboundCandidate, Graft, Slices, Elems, NoDup, Sane;
    GraftNone(m);
    m', sel := m, {};
    if |m.peers| >= c.Dlo {
      var outbound := |m.peers * e.outbound|;
      if outbound < c.Dout {
        m', sel := GraftSome(e, b, m, c.Dout - outbound, OutboundCandidate(e, m.peers, m.bo, score), score);
      }
    }
  }

  /** `median` is the score in the middle of the members sorted by score. */
  ghost predicate IsMedian(median: real, peers: set<PeerId>, score: PeerId -> real) {
    exists plst :: NoDup(plst) && Elems(plst) == peers && SortedBy(plst, LowerScore(score))
      && |plst| == |peers| > 0 && median == score(plst[|plst| / 2])
  }

  /** Now and then: if the median score is poor, graft some better candidates. The score of the
      median member is read straight from the cache. */
  method Opportunistic(c: Params, e: Env, b: Bitmask, tick: nat, m: Mesh, score: PeerId -> real)
      returns (m': Mesh, ghost sel: set<PeerId>, ghost median: real)
    requires Sane(c) && Cached(m, score)
    ensures m' == Graft(m, sel, m'.scores) && Cached(m', score)
    ensures if tick % c.opportunisticGraftTicks == 0 && |m.peers| > 1 then
              && IsMedian(median, m.peers, score)
              && (if median < c.opportunisticGraftThreshold
                  then IsSelection(sel, Pool(e, Slices(b), BetterCandidate(e, m, score, median)),
                                   c.opportunisticGraftPeers)
                  else sel == {})
            else sel == {}
    ensures sel <= e.meshCapable && forall p :: p in sel ==> BetterCandidate(e, m, score, median)(p)
  {
    hide Pool, IsSelection, BetterCandidate, Graft;
    GraftNone(m);
    m', sel, median := m, {}, 0.0;
    if tick % c.opportunisticGraftTicks == 0 && |m.peers| > 1 {
      var plst := Pick(m.peers, 0);
      SelectedAll(plst, m.peers);
      plst := SortPeers(plst, LowerScore(score), m.peers);
      assert plst[|plst| / 2] in Elems(plst);
      var medianScore := m.scores[plst[|plst| / 2]];
      median := medianScore;
      if medianScore < c.opportunisticGraftThreshold {
        m', sel := GraftSome(e, b, m, c.opportunisticGraftPeers, BetterCandidate(e, m, score, medianScore), score);
      }
    }
  }

  lemma SelectedAll(plst: seq<PeerId>, peers: set<PeerId>)
    requires NoDup(plst) && IsSelection(Elems(plst), peers, 0)
    ensures Elems(plst) == peers && |plst| == |peers|
  {
    SubsetCard(Elems(plst), peers);
    ElemsCard(plst);
  }

  method SortPeers(plst: seq<PeerId>, leq: (PeerId, PeerId) -> bool, ghost peers: set<PeerId>)
      returns (sorted: seq<PeerId>)
    requires TotalPreorder(leq)
    requires NoDup(plst) && Elems(plst) == peers && |plst| == |peers|
    ensures NoDup(sorted) && Elems(sorted) == peers && |sorted| == |peers| && SortedBy(sorted, leq)
  {
    sorted := Sort(plst, leq);
    SameMembers(sorted, plst);
    PermutedDistinct(sorted, plst);
  }

  /** What a cut leaves: D of the members, with the outbound quota kept as far as possible and, if
      both quotas fit into D, the Dscore best scoring members. */
  ghost predicate GoodCut(c: Params, e: Env, peers: set<PeerId>, kept: set<PeerId>, score: PeerId -> real) {
    && kept <= peers && |kept| == c.D
    && (|kept * e.outbound| >= c.Dout || kept * e.outbound == peers * e.outbound)
    && (c.Dscore + c.Dout <= c.D ==>
          exists top: set<PeerId> :: |top| == c.Dscore && top <= kept
            && forall p, q :: p in top && q in peers - top ==> score(p) >= score(q))
  }

  lemma CachedBelow(m: Mesh, m': Mesh, score: PeerId -> real)
    requires Cached(m, score) && m'.peers <= m.peers && m'.scores == m.scores
    ensures Cached(m', score)
  {
  }

  method CutDown(c: Params, e: Env, m: Mesh, score: PeerId -> real) returns (m': Mesh)
    requires Sane(c) && Cached(m, score)
    ensures PrunedAll(c, m, m', m.peers - m'.peers) && Cached(m', score)
    ensures if |m.peers| > c.Dhi then GoodCut(c, e, m.peers, m'.peers, score) else m' == m
  {
    hide GoodCut, Raised, Cached;
    m' := m;
    PrunedNone(c, m);
    assert m.peers - m.peers == {};
    if |m.peers| > c.Dhi {
      var kept, pruned := ChooseKept(c, e, m.peers, score);
      m' := PruneAll(c, m, pruned);
      assert m.peers - pruned == kept && m.peers - kept == pruned;
      CachedBelow(m, m', score);
    }
  }

  /** Sort by score, shuffle all but the Dscore best, bubble up outbound peers, keep the first D. */
  method ChooseKept(c: Params, e: Env, peers: set<PeerId>, score: PeerId -> real)
      returns (kept: set<PeerId>, pruned: set<PeerId>)
    requires Sane(c) && |peers| > c.Dhi
    ensures GoodCut(c, e, peers, kept, score)
    ensures kept !! pruned && kept + pruned == peers
  {
    var plst := Pick(peers, 0);
    SelectedAll(plst, peers);
    plst := SortPeers(plst, HigherScore(score), peers);
    ghost var sorted := plst;
    var tail := Shuffle(plst[c.Dscore..]);
    plst := plst[..c.Dscore] + tail;
    ShuffledTail(sorted, plst, c.Dscore, peers);
    var a := new PeerId[|plst|](i requires 0 <= i < |plst| => plst[i]);
    assert a[..] == plst;
    MeshCut.ArrangeInPlace(a, e.outbound, c.D, c.Dout);
    ArrangedIsGoodCut(c, e, peers, sorted, plst, score);
    kept := set p | p in a[..c.D];
    pruned := set p | p in a[c.D..];
    CutInTwo(a[..], c.D, peers);
  }

  lemma ShuffledTail(sorted: seq<PeerId>, plst: seq<PeerId>, k: nat, peers: set<PeerId>)
    requires NoDup(sorted) && Elems(sorted) == peers && |sorted| == |peers| && k <= |sorted| && k <= |plst|
    requires plst[..k] == sorted[..k] && IsPermutation(plst[k..], sorted[k..])
    ensures NoDup(plst) && Elems(plst) == peers && |plst| == |peers|
  {
    assert plst == plst[..k] + plst[k..] && sorted == sorted[..k] + sorted[k..];
    SameMembers(plst, sorted);
    PermutedDistinct(plst, sorted);
  }

  lemma CutInTwo(r: seq<PeerId>, d: nat, peers: set<PeerId>)
    requires NoDup(r) && Elems(r) == peers && d <= |r|
    ensures Elems(r[..d]) !! Elems(r[d..]) && Elems(r[..d]) + Elems(r[d..]) == peers && |Elems(r[..d])| == d
  {
    ElemsCard(r[..d]);
    assert r == r[..d] + r[d..];
  }

  lemma {:induction false} CountIsCard(s: seq<PeerId>, outbound: set<PeerId>)
    requires NoDup(s)
    ensures MeshCut.Count(s, outbound) == |Elems(s) * outbound|
  {
    if s != [] {
      var init, p := s[..|s| - 1], s[|s| - 1];
      CountIsCard(init, outbound);
      assert s == init + [p];
      Snoc(init, p);
      assert p !in Elems(init);
      OneMoreOutbound(Elems(init), p, outbound);
    }
  }

  lemma OneMoreOutbound(ps: set<PeerId>, p: PeerId, outbound: set<PeerId>)
    requires p !in ps
    ensures |(ps + {p}) * outbound| == |ps * outbound| + if p in outbound then 1 else 0
  {
    assert (ps + {p}) * outbound == ps * outbound + if p in outbound then {p} else {};
  }

  lemma ArrangedDistinct(e: Env, peers: set<PeerId>, plst: seq<PeerId>, d: nat, dout: nat)
    requires NoDup(plst) && Elems(plst) == peers && d <= |plst|
    ensures var r := MeshCut.Arrange(plst, e.outbound, d, dout);
            NoDup(r) && Elems(r) == peers && |r| == |plst|
  {
    var r := MeshCut.Arrange(plst, e.outbound, d, dout);
    MeshCut.ArrangePermutes(plst, e.outbound, d, dout);
    SameMembers(r, plst);
    PermutedDistinct(r, plst);
  }

  lemma ArrangedIsGoodCut(c: Params, e: Env, peers: set<PeerId>, sorted: seq<PeerId>, plst: seq<PeerId>,
                          score: PeerId -> real)
    requires Sane(c) && |peers| > c.Dhi
    requires NoDup(plst) && Elems(plst) == peers && |plst| == |peers|
    requires NoDup(sorted) && Elems(sorted) == peers && SortedBy(sorted, HigherScore(score)) && |sorted| == |peers|
    requires plst[..c.Dscore] == sorted[..c.Dscore]
    ensures var r := MeshCut.Arrange(plst, e.outbound, c.D, c.Dout);
            && NoDup(r) && Elems(r) == peers && |r| == |peers|
            && GoodCut(c, e, peers, Elems(r[..c.D]), score)
  {
    hide MeshCut.Arrange;
    ArrangedDistinct(e, peers, plst, c.D, c.Dout);
    var r := MeshCut.Arrange(plst, e.outbound, c.D, c.Dout);
    CutInTwo(r, c.D, peers);
    OutboundKept(e, peers, plst, c.D, c.Dout);
    if c.Dscore + c.Dout <= c.D {
      TopKept(c, e, peers, sorted, plst, score);
    }
  }

  lemma OutboundKept(e: Env, peers: set<PeerId>, plst: seq<PeerId>, d: nat, dout: nat)
    requires NoDup(plst) && Elems(plst) == peers && dout <= d <= |plst|
    ensures var kept := Elems(MeshCut.Arrange(plst, e.outbound, d, dout)[..d]);
            |kept * e.outbound| >= dout || kept * e.outbound == peers * e.outbound
  {
    hide MeshCut.Arrange;
    MeshCut.KeepsOutbound(plst, e.outbound, d, dout);
    ArrangedDistinct(e, peers, plst, d, dout);
    var r := MeshCut.Arrange(plst, e.outbound, d, dout);
    CutInTwo(r, d, peers);
    CountIsCard(r[..d], e.outbound);
    CountIsCard(plst, e.outbound);
    SubsetCard(Elems(r[..d]) * e.outbound, peers * e.outbound);
  }

  lemma TopKept(c: Params, e: Env, peers: set<PeerId>, sorted: seq<PeerId>, plst: seq<PeerId>, score: PeerId -> real)
    requires Sane(c) && c.D <= |plst| == |sorted| && c.Dscore + c.Dout <= c.D
    requires NoDup(sorted) && Elems(sorted) == peers && SortedBy(sorted, HigherScore(score))
    requires plst[..c.Dscore] == sorted[..c.Dscore]
    ensures var kept := Elems(MeshCut.Arrange(plst, e.outbound, c.D, c.Dout)[..c.D]);
            exists top: set<PeerId> :: |top| == c.Dscore && top <= kept
              && forall p, q :: p in top && q in peers - top ==> score(p) >= score(q)
  {
    hide MeshCut.Arrange;
    var r := MeshCut.Arrange(plst, e.outbound, c.D, c.Dout);
    var top := Elems(sorted[..c.Dscore]);
    ElemsCard(sorted[..c.Dscore]);
    forall p | p in top ensures p in Elems(r[..c.D]) {
      var i :| 0 <= i < c.Dscore && sorted[i] == p;
      assert plst[..c.Dscore][i] == p;
      MeshCut.KeepsTopScores(plst, e.outbound, c.D, c.Dout, c.Dscore, i);
    }
    forall p, q | p in top && q in peers - top ensures score(p) >= score(q) {
      TopFirst(sorted, c.Dscore, score, p, q);
    }
  }

  lemma TopFirst(sorted: seq<PeerId>, k: nat, score: PeerId -> real, p: PeerId, q: PeerId)
    requires SortedBy(sorted, HigherScore(score)) && k <= |sorted|
    requires p in sorted[..k] && q in sorted && q !in sorted[..k]
    ensures score(p) >= score(q)
  {
    var i :| 0 <= i < k && sorted[i] == p;
    var j :| 0 <= j < |sorted| && sorted[j] == q;
    assert j >= k;
    assert HigherScore(score)(sorted[i], sorted[j]);
  }

  // --------------------------------------------------------- one whole heartbeat

  function NonNegative(peers: set<PeerId>, score: PeerId -> real): set<PeerId> {
    set p | p in peers && score(p) >= 0.0
  }

  /** Who may be pruned: the members with negative score and, only if the others are more than Dhi,
      all but a good choice of D of them. */
  ghost predicate RightlyPruned(c: Params, e: Env, m0: Mesh, pruned: set<PeerId>, score: PeerId -> real) {
    var good := NonNegative(m0.peers, score);
    if |good| > c.Dhi then GoodCut(c, e, good, m0.peers - pruned, score) else m0.peers - pruned == good
  }

  /** One heartbeat turns the mesh m0 into m: exactly the right members are pruned, nobody is both
      grafted and pruned, whoever was pruned is backed off, whoever was grafted has no backoff entry
      and is not a direct peer, every remaining member has a non-negative score, the mesh has at most
      Dhi + Dout + OpportunisticGraftPeers members, it has at least Dlo unless it took every candidate
      that was left after the members with negative score were dropped, and it was filled up to D and
      then given its quota of outbound members. */
  ghost predicate Maintained(c: Params, e: Env, b: Bitmask, m0: Mesh, m: Mesh, score: PeerId -> real)
    requires Sane(c)
  {
    && Books(c, m0, m)
    && RightlyPruned(c, e, m0, m.pruned, score)
    && m.grafted !! m.pruned && Proper(e, m.grafted)
    && AllNonNegative(m.peers, score)
    && |m.peers| <= c.Dhi + c.Dout + c.opportunisticGraftPeers
    && (|m.peers| < c.Dlo ==>
          forall p :: p in Pool(e, Slices(b), Candidate(e, m0.peers - m.pruned, m.bo, score)) ==> p in m.peers)
    && exists mid :: FilledAndQuota(c, e, b, m0.peers - m.pruned, mid, m, score)
  }

  /** Fewer than Dlo members are filled up to D, or with all the candidates; others are left alone. */
  ghost predicate Filled(c: Params, e: Env, b: Bitmask, start: set<PeerId>, mid: set<PeerId>, bo: Expiries,
                         score: PeerId -> real)
    requires Sane(c)
  {
    && start <= mid
    && if |start| < c.Dlo
       then IsSelection(mid - start, Pool(e, Slices(b), Candidate(e, start, bo, score)), c.D - |start|)
       else mid == start
  }

  /** A mesh that reached Dlo members has Dout outbound ones, or it took every outbound candidate. */
  ghost predicate QuotaMet(c: Params, e: Env, b: Bitmask, mid: set<PeerId>, m: Mesh, score: PeerId -> real) {
    |mid| >= c.Dlo ==>
      || |m.peers * e.outbound| >= c.Dout
      || Pool(e, Slices(b), OutboundCandidate(e, mid, m.bo, score)) <= m.peers
  }

  /** `start` are the members that were not pruned, `mid` those after filling up. */
  ghost predicate FilledAndQuota(c: Params, e: Env, b: Bitmask, start: set<PeerId>, mid: set<PeerId>, m: Mesh,
                                 score: PeerId -> real)
    requires Sane(c)
  {
    && mid <= m.peers && |mid| <= c.Dhi
    && Filled(c, e, b, start, mid, m.bo, score)
    && QuotaMet(c, e, b, mid, m, score)
  }

  lemma BooksStart(c: Params, m0: Mesh, m1: Mesh)
    requires m0.grafted == {} && m0.pruned == {}
    requires PrunedAll(c, m0.(scores := m1.scores), m1, m0.peers - m1.peers)
    ensures Books(c, m0, m1) && m1.grafted == {} && m1.peers <= m0.peers
  {
  }

  lemma BooksGraft(c: Params, m0: Mesh, m: Mesh, m': Mesh, sel: set<PeerId>)
    requires Books(c, m0, m)
    requires m' == Graft(m, sel, m'.scores)
    requires sel !! m.peers && sel !! m.bo.Keys
    ensures Books(c, m0, m')
  {
    assert m.pruned <= m.bo.Keys;
  }

  lemma BooksCut(c: Params, m0: Mesh, m: Mesh, m': Mesh)
    requires Books(c, m0, m) && m.grafted == {}
    requires PrunedAll(c, m, m', m.peers - m'.peers) && m'.peers <= m.peers
    ensures Books(c, m0, m')
  {
    RaisedTwice(m0.bo, m.bo, m'.bo, m.pruned, m.peers - m'.peers, m0.now, m.now, m'.now, c.pruneBackoff);
  }

  lemma SelectionBound(sel: set<PeerId>, pool: set<PeerId>, count: nat)
    requires IsSelection(sel, pool, count) && count > 0
    ensures |sel| <= count
    ensures |sel| < count ==> sel == pool
  {
    SubsetCard(sel, pool);
  }

  lemma MedianNonNegative(median: real, peers: set<PeerId>, score: PeerId -> real)
    requires IsMedian(median, peers, score) && AllNonNegative(peers, score)
    ensures median >= 0.0
  {
    var plst :| NoDup(plst) && Elems(plst) == peers && SortedBy(plst, LowerScore(score))
      && |plst| == |peers| > 0 && median == score(plst[|plst| / 2]);
    assert plst[|plst| / 2] in Elems(plst);
  }

  /** The mesh loop body of `heartbeat`. */
  method MaintainMesh(c: Params, e: Env, b: Bitmask, tick: nat, m0: Mesh, score: PeerId -> real) returns (m: Mesh)
    requires Sane(c) && m0.grafted == {} && m0.pruned == {} && m0.scores == map[]
    ensures Maintained(c, e, b, m0, m, score)
  {
    hide Raised;
    var m1 := DropNegative(c, m0, score);
    assert m0.peers - m1.peers == set p | p in m0.peers && score(p) < 0.0;
    assert m1.peers == NonNegative(m0.peers, score);
    BooksStart(c, m0, m1);
    var m2 := FillAndCut(c, e, b, m0, m1, score);
    m := ImproveMesh(c, e, b, tick, m0, m1, m2, score);
  }

  /** The state after the mesh was brought between Dlo and Dhi as far as possible. */
  ghost predicate Balanced(c: Params, e: Env, b: Bitmask, m0: Mesh, m1: Mesh, m: Mesh, score: PeerId -> real)
    requires Sane(c)
  {
    && Books(c, m0, m) && Cached(m, score) && AllNonNegative(m.peers, score)
    && |m.peers| <= c.Dhi && Proper(e, m.grafted)
    && RightlyPruned(c, e, m0, m.pruned, score)
    && (|m.peers| < c.Dlo ==>
          && m.pruned == m1.pruned && m.bo == m1.bo
          && forall p :: p in Pool(e, Slices(b), Candidate(e, m1.peers, m1.bo, score)) ==> p in m.peers)
    && Filled(c, e, b, m0.peers - m.pruned, m.peers, m.bo, score)
  }

  /** What grafting well chosen peers keeps. */
  lemma GraftKeeps(c: Params, e: Env, m0: Mesh, m: Mesh, m': Mesh, sel: set<PeerId>, score: PeerId -> real)
    requires Books(c, m0, m) && AllNonNegative(m.peers, score) && Proper(e, m.grafted)
    requires m' == Graft(m, sel, m'.scores)
    requires sel <= e.meshCapable
    requires forall p :: p in sel ==> p !in m.peers && p !in m.bo && p !in e.direct && score(p) >= 0.0
    ensures Books(c, m0, m') && AllNonNegative(m'.peers, score) && Proper(e, m'.grafted)
    ensures |m'.peers| == |m.peers| + |sel|
  {
    assert sel !! m.peers && sel !! m.bo.Keys;
    BooksGraft(c, m0, m, m', sel);
  }

  lemma FillKeeps(c: Params, e: Env, m0: Mesh, m1: Mesh, m2: Mesh, sel: set<PeerId>, pool: set<PeerId>,
                  score: PeerId -> real)
    requires Sane(c) && Books(c, m0, m1) && m1.grafted == {} && AllNonNegative(m1.peers, score)
    requires m2 == Graft(m1, sel, m2.scores)
    requires sel <= e.meshCapable
    requires forall p :: p in sel ==> Candidate(e, m1.peers, m1.bo, score)(p)
    requires if |m1.peers| < c.Dlo then IsSelection(sel, pool, c.D - |m1.peers|) else sel == {}
    ensures Books(c, m0, m2) && AllNonNegative(m2.peers, score) && Proper(e, m2.grafted)
    ensures |m2.peers| < c.Dlo ==> pool <= m2.peers
    ensures |m2.peers| <= c.Dhi || m2.grafted == {}
    ensures sel !! m1.peers
  {
    GraftKeeps(c, e, m0, m1, m2, sel, score);
    if |m1.peers| < c.Dlo {
      SelectionBound(sel, pool, c.D - |m1.peers|);
    }
  }

  lemma FillLeavesFull(c: Params, m1: Mesh, m2: Mesh, sel: set<PeerId>)
    requires m1.grafted == {} && m2 == Graft(m1, sel, m2.scores) && m2.grafted == {}
    ensures m2.peers == m1.peers
  {
  }

  lemma CutKeeps(c: Params, e: Env, m0: Mesh, m2: Mesh, m: Mesh, score: PeerId -> real)
    requires Sane(c) && Books(c, m0, m2) && AllNonNegative(m2.peers, score)
    requires m2.grafted == {} && PrunedAll(c, m2, m, m2.peers - m.peers) && GoodCut(c, e, m2.peers, m.peers, score)
    ensures Books(c, m0, m) && AllNonNegative(m.peers, score) && m.grafted == {} && |m.peers| == c.D
  {
    BooksCut(c, m0, m2, m);
  }

  method FillAndCut(c: Params, e: Env, b: Bitmask, ghost m0: Mesh, m1: Mesh, score: PeerId -> real) returns (m: Mesh)
    requires Sane(c) && Books(c, m0, m1) && m1.grafted == {} && Cached(m1, score) && AllNonNegative(m1.peers, score)
    requires m1.peers == NonNegative(m0.peers, score)
    ensures Balanced(c, e, b, m0, m1, m, score)
  {
    hide Raised, Pool, IsSelection, Candidate, Cached, Books, GoodCut, AllNonNegative, NonNegative,
      Graft, Balanced, PrunedAll;
    var m2, sel := FillUp(c, e, b, m1, score);
    FillKeeps(c, e, m0, m1, m2, sel, Pool(e, Slices(b), Candidate(e, m1.peers, m1.bo, score)), score);
    m := CutDown(c, e, m2, score);
    if |m2.peers| > c.Dhi {
      BalancedByCut(c, e, b, m0, m1, m2, m, sel, score);
    } else {
      BalancedUncut(c, e, b, m0, m1, m, sel, score);
    }
  }

  lemma BalancedByCut(c: Params, e: Env, b: Bitmask, m0: Mesh, m1: Mesh, m2: Mesh, m: Mesh, sel: set<PeerId>,
                      score: PeerId -> real)
    requires Sane(c) && Books(c, m0, m2) && AllNonNegative(m2.peers, score) && Cached(m, score)
    requires m1.grafted == {} && m2 == Graft(m1, sel, m2.scores) && m2.grafted == {}
    requires m1.peers == NonNegative(m0.peers, score) && |m2.peers| > c.Dhi
    requires PrunedAll(c, m2, m, m2.peers - m.peers) && GoodCut(c, e, m2.peers, m.peers, score)
    ensures Balanced(c, e, b, m0, m1, m, score)
  {
    hide Raised, Pool, Candidate, Cached, Books, GoodCut, AllNonNegative, NonNegative;
    CutKeeps(c, e, m0, m2, m, score);
    FillLeavesFull(c, m1, m2, sel);
    SurvivorsAre(c, m0, m);
    assert Filled(c, e, b, m.peers, m.peers, m.bo, score);
  }

  lemma BalancedUncut(c: Params, e: Env, b: Bitmask, m0: Mesh, m1: Mesh, m: Mesh, sel: set<PeerId>,
                      score: PeerId -> real)
    requires Sane(c) && sel !! m1.peers
    requires if |m1.peers| < c.Dlo
             then IsSelection(sel, Pool(e, Slices(b), Candidate(e, m1.peers, m1.bo, score)), c.D - |m1.peers|)
             else sel == {}
    requires Books(c, m0, m1) && m1.grafted == {} && m1.peers == NonNegative(m0.peers, score)
    requires Books(c, m0, m) && AllNonNegative(m.peers, score) && Proper(e, m.grafted) && Cached(m, score)
    requires m == Graft(m1, sel, m.scores) && |m.peers| <= c.Dhi
    requires |m.peers| < c.Dlo ==> Pool(e, Slices(b), Candidate(e, m1.peers, m1.bo, score)) <= m.peers
    ensures Balanced(c, e, b, m0, m1, m, score)
  {
    hide Raised, Pool, Candidate, Cached, Books, GoodCut, AllNonNegative, NonNegative;
    SurvivorsAre(c, m0, m1);
    SubsetCard(m1.peers, m.peers);
    FilledBy(c, e, b, m1, m, sel, score);
  }

  lemma AddedOnly(m1: Mesh, m: Mesh, sel: set<PeerId>)
    requires m == Graft(m1, sel, m.scores) && sel !! m1.peers
    ensures m1.peers <= m.peers && m.peers - m1.peers == sel && m.bo == m1.bo && (sel == {} ==> m.peers == m1.peers)
  {
  }

  lemma FilledBy(c: Params, e: Env, b: Bitmask, m1: Mesh, m: Mesh, sel: set<PeerId>, score: PeerId -> real)
    requires Sane(c) && m == Graft(m1, sel, m.scores) && sel !! m1.peers
    requires if |m1.peers| < c.Dlo
             then IsSelection(sel, Pool(e, Slices(b), Candidate(e, m1.peers, m1.bo, score)), c.D - |m1.peers|)
             else sel == {}
    ensures Filled(c, e, b, m1.peers, m.peers, m.bo, score)
  {
    AddedOnly(m1, m, sel);
    hide Pool, Candidate, IsSelection, Slices, Graft, Sane;
  }

  lemma OutboundKeeps(c: Params, e: Env, m0: Mesh, m2: Mesh, m3: Mesh, sel: set<PeerId>, pool: set<PeerId>,
                      score: PeerId -> real)
    requires Sane(c) && Books(c, m0, m2) && AllNonNegative(m2.peers, score) && Proper(e, m2.grafted)
    requires m3 == Graft(m2, sel, m3.scores)
    requires sel <= e.meshCapable
    requires forall p :: p in sel ==> OutboundCandidate(e, m2.peers, m2.bo, score)(p)
    requires if |m2.peers| >= c.Dlo && |m2.peers * e.outbound| < c.Dout
             then IsSelection(sel, pool, c.Dout - |m2.peers * e.outbound|) else sel == {}
    ensures Books(c, m0, m3) && AllNonNegative(m3.peers, score) && Proper(e, m3.grafted)
    ensures |m3.peers| <= |m2.peers| + c.Dout
  {
    GraftKeeps(c, e, m0, m2, m3, sel, score);
    if sel != {} {
      SelectionBound(sel, pool, c.Dout - |m2.peers * e.outbound|);
    }
  }

  lemma OpportunisticKeeps(c: Params, e: Env, tick: nat, m0: Mesh, m3: Mesh, m4: Mesh, sel: set<PeerId>, median: real,
                           pool: set<PeerId>, score: PeerId -> real)
    requires Sane(c) && Books(c, m0, m3) && AllNonNegative(m3.peers, score) && Proper(e, m3.grafted)
    requires m4 == Graft(m3, sel, m4.scores)
    requires sel <= e.meshCapable
    requires forall p :: p in sel ==> BetterCandidate(e, m3, score, median)(p)
    requires sel != {} ==> IsMedian(median, m3.peers, score) && IsSelection(sel, pool, c.opportunisticGraftPeers)
    ensures Books(c, m0, m4) && AllNonNegative(m4.peers, score) && Proper(e, m4.grafted)
    ensures |m4.peers| <= |m3.peers| + c.opportunisticGraftPeers
  {
    if sel != {} {
      MedianNonNegative(median, m3.peers, score);
      SelectionBound(sel, pool, c.opportunisticGraftPeers);
    }
    GraftKeeps(c, e, m0, m3, m4, sel, score);
  }

  lemma PrunedGraftedDisjoint(c: Params, m0: Mesh, m: Mesh)
    requires Books(c, m0, m)
    ensures m.grafted !! m.pruned
  {
  }

  lemma SurvivorsAre(c: Params, m0: Mesh, m1: Mesh)
    requires Books(c, m0, m1) && m1.grafted == {}
    ensures m1.peers == m0.peers - m1.pruned
  {
  }

  /** Grafting never takes a mesh from above Dlo to below it. */
  lemma BalanceLasts(c: Params, e: Env, b: Bitmask, m0: Mesh, m1: Mesh, m2: Mesh, m: Mesh, score: PeerId -> real)
    requires Sane(c) && Balanced(c, e, b, m0, m1, m2, score) && Books(c, m0, m1) && m1.grafted == {}
    requires m2.peers <= m.peers && m.pruned == m2.pruned && m.bo == m2.bo
    ensures |m.peers| < c.Dlo ==>
              forall p :: p in Pool(e, Slices(b), Candidate(e, m0.peers - m.pruned, m.bo, score)) ==> p in m.peers
  {
    hide Raised, Pool, Candidate, AllNonNegative, Filled;
    SurvivorsAre(c, m0, m1);
    SubsetCard(m2.peers, m.peers);
  }

  lemma QuotaLasts(c: Params, e: Env, b: Bitmask, m2: Mesh, m3: Mesh, m: Mesh, sel: set<PeerId>, score: PeerId -> real)
    requires m3 == Graft(m2, sel, m3.scores) && m3.peers <= m.peers && m.bo == m2.bo
    requires forall p :: p in sel ==> OutboundCandidate(e, m2.peers, m2.bo, score)(p)
    requires if |m2.peers| >= c.Dlo && |m2.peers * e.outbound| < c.Dout
             then IsSelection(sel, Pool(e, Slices(b), OutboundCandidate(e, m2.peers, m2.bo, score)),
                              c.Dout - |m2.peers * e.outbound|)
             else sel == {}
    ensures QuotaMet(c, e, b, m2.peers, m, score)
  {
    OutboundOnly(e, m2, sel, score);
    hide Pool, Slices, IsSelection, OutboundCandidate;
    if |m2.peers| >= c.Dlo {
      QuotaReached(m2.peers, sel, m.peers, e.outbound,
                   Pool(e, Slices(b), OutboundCandidate(e, m2.peers, m2.bo, score)), c.Dout);
    }
  }

  lemma OutboundOnly(e: Env, m: Mesh, sel: set<PeerId>, score: PeerId -> real)
    requires forall p :: p in sel ==> OutboundCandidate(e, m.peers, m.bo, score)(p)
    ensures sel <= e.outbound && sel !! m.peers
  {
  }

  lemma QuotaReached(had: set<PeerId>, sel: set<PeerId>, peers: set<PeerId>, outbound: set<PeerId>, pool: set<PeerId>,
                     quota: nat)
    requires sel <= outbound && sel !! had && had + sel <= peers
    requires |had * outbound| < quota ==> IsSelection(sel, pool, quota - |had * outbound|)
    ensures |peers * outbound| >= quota || pool <= peers
  {
    SubsetCard(had * outbound + sel, peers * outbound);
    if |had * outbound| < quota {
      SelectionBound(sel, pool, quota - |had * outbound|);
    }
  }

  lemma FilledLasts(c: Params, e: Env, b: Bitmask, m0: Mesh, m2: Mesh, m: Mesh, score: PeerId -> real)
    requires Sane(c) && Filled(c, e, b, m0.peers - m2.pruned, m2.peers, m2.bo, score) && |m2.peers| <= c.Dhi
    requires m2.peers <= m.peers && m.pruned == m2.pruned && m.bo == m2.bo
    requires QuotaMet(c, e, b, m2.peers, m, score)
    ensures exists mid :: FilledAndQuota(c, e, b, m0.peers - m.pruned, mid, m, score)
  {
    hide Filled, QuotaMet;
    assert FilledAndQuota(c, e, b, m0.peers - m.pruned, m2.peers, m, score);
  }

  method ImproveMesh(c: Params, e: Env, b: Bitmask, tick: nat, ghost m0: Mesh, ghost m1: Mesh, m2: Mesh,
                     score: PeerId -> real)
      returns (m: Mesh)
    requires Sane(c) && Balanced(c, e, b, m0, m1, m2, score)
    requires m1.grafted == {} && Books(c, m0, m1)
    ensures Maintained(c, e, b, m0, m, score)
  {
    hide Raised, Pool, Books, Candidate, AllNonNegative, IsSelection, IsMedian, Cached, Graft, OutboundCandidate,
      BetterCandidate, RightlyPruned, Filled, QuotaMet, FilledAndQuota;
    var m3, sel3 := AddOutbound(c, e, b, m2, score);
    OutboundKeeps(c, e, m0, m2, m3, sel3, Pool(e, Slices(b), OutboundCandidate(e, m2.peers, m2.bo, score)), score);
    ghost var sel4, median;
    m, sel4, median := Opportunistic(c, e, b, tick, m3, score);
    OpportunisticKeeps(c, e, tick, m0, m3, m, sel4, median, Pool(e, Slices(b), BetterCandidate(e, m3, score, median)),
                       score);
    PrunedGraftedDisjoint(c, m0, m);
    GraftOnlyAdds(m2, sel3, m3.scores);
    GraftOnlyAdds(m3, sel4, m.scores);
    BalanceLasts(c, e, b, m0, m1, m2, m, score);
    QuotaLasts(c, e, b, m2, m3, m, sel3, score);
    FilledLasts(c, e, b, m0, m2, m, score);
  }

  // -------------------------------------------------- nobody is passed over

  /** A mesh that is still short after a heartbeat has every peer that could have been grafted. */
  lemma ShortMeshHasEverybody(c: Params, e: Env, b: Bitmask, m0: Mesh, m: Mesh, score: PeerId -> real, p: PeerId)
    requires Sane(c) && Maintained(c, e, b, m0, m, score) && |m.peers| < c.Dlo
    requires Available(e, b, p) && p !in m.bo && p !in e.direct && score(p) >= 0.0
    ensures p in m.peers
  {
    hide Pool, Slices, Available, RightlyPruned, AllNonNegative, FilledAndQuota, Raised;
    if p !in m0.peers - m.pruned {
      AvailableInPool(e, b, Candidate(e, m0.peers - m.pruned, m.bo, score), p);
    }
  }

  /** A mesh that had enough members and is still short of outbound ones has every outbound peer that could have
      been grafted. */
  lemma QuotaHasEverybody(c: Params, e: Env, b: Bitmask, m0: Mesh, m: Mesh, score: PeerId -> real, p: PeerId)
    requires Sane(c) && Maintained(c, e, b, m0, m, score)
    requires |m0.peers - m.pruned| >= c.Dlo && |m.peers * e.outbound| < c.Dout
    requires Available(e, b, p) && p in e.outbound && p !in m.bo && p !in e.direct && score(p) >= 0.0
    ensures p in m.peers
  {
    hide Pool, Slices, Available, RightlyPruned, AllNonNegative, Raised, Candidate, IsSelection;
    var mid :| FilledAndQuota(c, e, b, m0.peers - m.pruned, mid, m, score);
    if p !in mid {
      AvailableInPool(e, b, OutboundCandidate(e, mid, m.bo, score), p);
    }
  }

  /** Opportunistic grafting takes peers that score above the median only, and every such peer if it takes fewer
      than it may. */
  lemma OpportunisticTakesBetter(e: Env, b: Bitmask, m: Mesh, score: PeerId -> real, median: real, sel: set<PeerId>,
                                 count: nat, p: PeerId)
    requires IsSelection(sel, Pool(e, Slices(b), BetterCandidate(e, m, score, median)), count) && count > 0
    ensures p in sel ==> score(p) > median && p !in m.peers && p !in m.bo && p !in e.direct
    ensures |sel| < count && Available(e, b, p) && score(p) > median ==>
              p in sel || p in m.peers || p in m.bo || p in e.direct
  {
    hide Pool, Slices, Available;
    var f := BetterCandidate(e, m, score, median);
    PoolFiltered(e, Slices(b), f);
    assert p in sel ==> f(p);
    if |sel| < count && Available(e, b, p) && f(p) {
      NobodyPassedOver(e, b, f, sel, count, p);
    }
  }

  /** The median: more than half of the members score no more than it, and at least half no less. */
  lemma MedianIsInTheMiddle(median: real, peers: set<PeerId>, score: PeerId -> real)
    requires IsMedian(median, peers, score)
    ensures |set p | p in peers && score(p) <= median| >= |peers| / 2 + 1
    ensures |set p | p in peers && score(p) >= median| >= |peers| - |peers| / 2
  {
    var plst :| NoDup(plst) && Elems(plst) == peers && SortedBy(plst, LowerScore(score))
      && |plst| == |peers| > 0 && median == score(plst[|plst| / 2]);
    var k := |plst| / 2;
    ElemsCard(plst[..k + 1]);
    ElemsCard(plst[k..]);
    var low, high := set p | p in peers && score(p) <= median, set p | p in peers && score(p) >= median;
    forall p | p in Elems(plst[..k + 1]) ensures p in low {
      var i :| 0 <= i <= k && plst[i] == p;
      SortedAt(plst, score, i, k);
      assert p in Elems(plst);
    }
    forall p | p in Elems(plst[k..]) ensures p in high {
      var i :| k <= i < |plst| && plst[i] == p;
      SortedAt(plst, score, k, i);
      assert p in Elems(plst);
    }
    SubsetCard(Elems(plst[..k + 1]), low);
    SubsetCard(Elems(plst[k..]), high);
  }

  lemma SortedAt(plst: seq<PeerId>, score: PeerId -> real, i: nat, j: nat)
    requires SortedBy(plst, LowerScore(score)) && i <= j < |plst|
    ensures score(plst[i]) <= score(plst[j])
  {
    if i < j {
      assert LowerScore(score)(plst[i], plst[j]);
    }
  }
}

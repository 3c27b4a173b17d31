/** The BlossomSub router's meshes and prune backoffs as a state machine
    (go-libp2p-blossomsub/blossomsub.go). */
module Router {
  import opened Identifiers
  import opened Bitmasks
  import opened PeerSelection
  import opened MeshHeartbeat

  /** Times and intervals are in nanoseconds. */
  const SECOND := 1_000_000_000

  /** The slack of `clearBackoff`, two heartbeat intervals of 700 milliseconds. */
  const SLACK := 1_400_000_000

  datatype State = State(
    mesh: map<Bitmask, set<PeerId>>, fanout: map<Bitmask, set<PeerId>>, backoff: map<Bitmask, Expiries>, now: int)

  function BackoffOf(backoff: map<Bitmask, Expiries>, b: Bitmask): (bo: Expiries) {
    if b in backoff then backoff[b] else map[]
  }

  function AddBackoff(s: State, b: Bitmask, p: PeerId, interval: int): State {
    s.(backoff := s.backoff[b := AddExpiry(BackoffOf(s.backoff, b), p, s.now + interval)])
  }

  /** Go's conversion of a uint64 to a 64-bit signed integer, and its wrapping multiplication. */
  function Int64(x: int): (y: int)
    ensures -0x8000_0000_0000_0000 <= y < 0x8000_0000_0000_0000
    ensures (y - x) % 0x1_0000_0000_0000_0000 == 0
  {
    (x + 0x8000_0000_0000_0000) % 0x1_0000_0000_0000_0000 - 0x8000_0000_0000_0000
  }

  function Seconds(n: nat): int {
    Int64(Int64(n) * SECOND)
  }

  /** The conversion is exact if and only if the product fits into 63 bits. */
  lemma SecondsExact(n: nat)
    ensures Seconds(n) == n * SECOND <==> n * SECOND < 0x8000_0000_0000_0000
    ensures Seconds(n) < 0x8000_0000_0000_0000
  {
  }

  /** One second more than 2^63 nanoseconds gives a time in the past, and 2^63 seconds give none at all. */
  lemma SecondsWrap()
    ensures Seconds(9_223_372_037) < 0 && Seconds(0x8000_0000_0000_0000) == 0
  {
  }

  // -------------------------------------------------------------- the steps

  /** What one GRAFT leads to: the new state, whether a PRUNE is sent back, whether the prunes of this
      message may still offer other peers, and the behavioural penalty. */
  datatype Grafting = Grafting(state: State, reply: bool, px: bool, penalty: nat)

  /** One GRAFT of `handleGraft`; `start` is the clock reading at the start of the handler. */
  function GraftOne(c: Params, e: Env, s: State, p: PeerId, b: Bitmask, start: int, score: real): (r: Grafting) {
    if !e.allowed(p, b) then Grafting(s, false, true, 0)
    else if b !in s.mesh then Grafting(s, false, false, 0)
    else if p in s.mesh[b] then Grafting(s, false, true, 0)
    else if p in e.direct then Grafting(s, true, false, 0)
    else if p in BackoffOf(s.backoff, b) && start < BackoffOf(s.backoff, b)[p] then
      var flooding := start < BackoffOf(s.backoff, b)[p] + (c.graftFloodThreshold - c.pruneBackoff);
      Grafting(AddBackoff(s, b, p, c.pruneBackoff), true, false, if flooding then 2 else 1)
    else if score < 0.0 then Grafting(AddBackoff(s, b, p, c.pruneBackoff), true, false, 0)
    else if |s.mesh[b]| >= c.Dhi && p !in e.outbound then Grafting(AddBackoff(s, b, p, c.pruneBackoff), true, true, 0)
    else Grafting(s.(mesh := s.mesh[b := s.mesh[b] + {p}]), false, true, 0)
  }

  /** One PRUNE of `handlePrune`, with the number of seconds the sender asked for (zero: none). */
  function PruneOne(c: Params, s: State, p: PeerId, b: Bitmask, seconds: nat): (s': State) {
    if b !in s.mesh then s
    else
      var interval := if seconds > 0 then Seconds(seconds) else c.pruneBackoff;
      AddBackoff(s.(mesh := s.mesh[b := s.mesh[b] - {p}]), b, p, interval)
  }

  function Without(m: map<Bitmask, set<PeerId>>, p: PeerId): map<Bitmask, set<PeerId>> {
    map b | b in m :: m[b] - {p}
  }

  function RemovePeer(s: State, p: PeerId): (s': State) {
    s.(mesh := Without(s.mesh, p), fanout := Without(s.fanout, p))
  }

  function Unexpired(bo: Expiries, now: int): Expiries {
    map p | p in bo && bo[p] + SLACK >= now :: bo[p]
  }

  function ClearBackoff(s: State): (s': State) {
    s.(backoff := map b | b in s.backoff && Unexpired(s.backoff[b], s.now) != map[] :: Unexpired(s.backoff[b], s.now))
  }

  /** Exactly the entries that expired more than the slack ago are gone, and no bitmask is left empty. */
  ghost predicate OnlyExpiredCleared(was: map<Bitmask, Expiries>, cleared: map<Bitmask, Expiries>, now: int) {
    && (forall b, p :: p in BackoffOf(cleared, b) <==> p in BackoffOf(was, b) && BackoffOf(was, b)[p] + SLACK >= now)
    && (forall b, p :: p in BackoffOf(cleared, b) ==> BackoffOf(cleared, b)[p] == BackoffOf(was, b)[p])
    && (forall b :: b in cleared ==> cleared[b] != map[])
  }

  lemma ClearedEntries(s: State, b: Bitmask)
    ensures BackoffOf(ClearBackoff(s).backoff, b) == Unexpired(BackoffOf(s.backoff, b), s.now)
  {
    assert Unexpired(map[], s.now) == map[];
  }

  lemma ClearBackoffExact(s: State)
    ensures OnlyExpiredCleared(s.backoff, ClearBackoff(s).backoff, s.now)
  {
    forall b ensures BackoffOf(ClearBackoff(s).backoff, b) == Unexpired(BackoffOf(s.backoff, b), s.now) {
      ClearedEntries(s, b);
    }
  }

  ghost predicate OtherBackoffsSame(s: State, s': State, b: Bitmask) {
    forall b' :: b' != b ==> BackoffOf(s'.backoff, b') == BackoffOf(s.backoff, b')
  }

  ghost predicate Leave(c: Params, s: State, s': State, b: Bitmask) {
    if b !in s.mesh then s' == s
    else
      && s'.mesh == s.mesh - {b} && s'.fanout == s.fanout
      && OtherBackoffsSame(s, s', b)
      && Raised(BackoffOf(s.backoff, b), BackoffOf(s'.backoff, b), s.mesh[b], s.now, s'.now, c.unsubscribeBackoff)
  }

  /** The fanout peers that survive in `Join`: no backoff entry and no negative score. */
  function Welcome(s: State, b: Bitmask, score: PeerId -> real): set<PeerId> {
    if b !in s.fanout then {}
    else set p | p in s.fanout[b] && p !in BackoffOf(s.backoff, b) && score(p) >= 0.0
  }

  /** Scores are read twice in `Join`, so the two readings may differ. Without fanout the mesh is chosen
      afresh; a D of zero then means no limit. */
  ghost predicate Join(c: Params, e: Env, s: State, s': State, b: Bitmask, first: PeerId -> real,
                       second: PeerId -> real)
  {
    if b in s.mesh then s' == s
    else
      var kept := Welcome(s, b, first);
      && b in s'.mesh && s' == s.(mesh := s.mesh[b := s'.mesh[b]], fanout := s.fanout - {b})
      && kept <= s'.mesh[b]
      && if b !in s.fanout || |kept| < c.D
         then IsSelection(s'.mesh[b] - kept, Pool(e, Slices(b), Candidate(e, kept, BackoffOf(s.backoff, b), second)),
                          if |kept| < c.D then c.D - |kept| else 0)
         else s'.mesh[b] == kept
  }

  /** The mesh of b as the heartbeat finds it. */
  function MeshAt(s: State, b: Bitmask): Mesh
    requires b in s.mesh
  {
    Mesh(s.mesh[b], BackoffOf(s.backoff, b), s.now, map[], {}, {})
  }

  /** The heartbeat maintains the mesh of one bitmask. */
  ghost predicate Beat(c: Params, e: Env, s: State, s': State, b: Bitmask, m: Mesh, score: PeerId -> real) {
    && Sane(c) && b in s.mesh && Maintained(c, e, b, MeshAt(s, b), m, score)
    && s'.mesh == s.mesh[b := m.peers] && s'.fanout == s.fanout && s'.now == m.now
    && BackoffOf(s'.backoff, b) == m.bo && OtherBackoffsSame(s, s', b)
  }

  ghost predicate Tick(s: State, s': State) {
    s.now <= s'.now && s' == s.(now := s'.now)
  }

  ghost predicate FanoutOnly(s: State, s': State) {
    s' == s.(fanout := s'.fanout)
  }

  datatype Event =
    | Ticked | FanoutChanged | Cleared
    | Grafted(gp: PeerId, gb: Bitmask, start: int, gscore: real)
    | Pruned(pp: PeerId, pb: Bitmask, seconds: nat)
    | Removed(rp: PeerId)
    | Left(lb: Bitmask)
    | Joined(jb: Bitmask, first: PeerId -> real, second: PeerId -> real)
    | Beaten(bb: Bitmask, m: Mesh, bscore: PeerId -> real)

  /** One event; the environment `e` may be different at every event. */
  ghost predicate Step(c: Params, e: Env, s: State, ev: Event, s': State) {
    match ev
    case Ticked => Tick(s, s')
    case FanoutChanged => FanoutOnly(s, s')
    case Cleared => s' == ClearBackoff(s)
    case Grafted(p, b, start, score) => start <= s.now && s' == GraftOne(c, e, s, p, b, start, score).state
    case Pruned(p, b, seconds) => s' == PruneOne(c, s, p, b, seconds)
    case Removed(p) => s' == RemovePeer(s, p)
    case Left(b) => Leave(c, s, s', b)
    case Joined(b, first, second) => Join(c, e, s, s', b, first, second)
    case Beaten(b, m, score) => Beat(c, e, s, s', b, m, score)
  }

  // ------------------------------------------------- what single steps decide

  /** Recording a backoff moves one entry to the later of the two times and touches nothing else. */
  lemma AddBackoffExact(s: State, b: Bitmask, p: PeerId, interval: int)
    ensures var s' := AddBackoff(s, b, p, interval);
            var bo, bo' := BackoffOf(s.backoff, b), BackoffOf(s'.backoff, b);
            && s' == s.(backoff := s'.backoff) && OtherBackoffsSame(s, s', b)
            && bo'.Keys == bo.Keys + {p}
            && bo'[p] == (if p in bo && bo[p] > s.now + interval then bo[p] else s.now + interval)
            && forall q :: q in bo && q != p ==> bo'[q] == bo[q]
  {
  }

  /** A backoff entry that has not expired at `start`. */
  ghost predicate BackedOff(s: State, p: PeerId, b: Bitmask, start: int) {
    p in BackoffOf(s.backoff, b) && BackoffOf(s.backoff, b)[p] > start
  }

  /** Who may enter a mesh by a GRAFT. */
  ghost predicate Acceptable(c: Params, e: Env, s: State, p: PeerId, b: Bitmask, start: int, score: real) {
    && b in s.mesh && e.allowed(p, b) && p !in e.direct && !BackedOff(s, p, b, start) && score >= 0.0
    && (|s.mesh[b]| < c.Dhi || p in e.outbound)
  }

  /** Who is told that it may not enter. */
  ghost predicate Refused(c: Params, e: Env, s: State, p: PeerId, b: Bitmask, start: int, score: real) {
    b in s.mesh && p !in s.mesh[b] && e.allowed(p, b) && !Acceptable(c, e, s, p, b, start, score)
  }

  /** A peer that is not yet in the mesh is taken if and only if it is acceptable. No other member and no other
      mesh changes. */
  lemma GraftDecides(c: Params, e: Env, s: State, p: PeerId, b: Bitmask, start: int, score: real)
    ensures var s' := GraftOne(c, e, s, p, b, start, score).state;
            && s'.mesh.Keys == s.mesh.Keys && s'.fanout == s.fanout && s'.now == s.now
            && (forall b' :: b' in s.mesh && b' != b ==> s'.mesh[b'] == s.mesh[b'])
            && (b in s.mesh ==> s'.mesh[b] == s.mesh[b] + if Acceptable(c, e, s, p, b, start, score) then {p} else {})
  {
    AddBackoffExact(s, b, p, c.pruneBackoff);
    hide AddBackoff, BackoffOf, OtherBackoffsSame;
    if b in s.mesh {
      assert s.mesh[b] + {} == s.mesh[b];
    }
  }

  /** A PRUNE goes back if and only if the filter lets the peer through and it is not taken. */
  lemma GraftReplies(c: Params, e: Env, s: State, p: PeerId, b: Bitmask, start: int, score: real)
    ensures GraftOne(c, e, s, p, b, start, score).reply <==> Refused(c, e, s, p, b, start, score)
  {
    hide AddBackoff;
  }

  /** A refusal records a backoff from now on, unless the peer is a direct one; nothing else is recorded. */
  lemma GraftRecords(c: Params, e: Env, s: State, p: PeerId, b: Bitmask, start: int, score: real)
    ensures var r := GraftOne(c, e, s, p, b, start, score);
            if r.reply && p !in e.direct then r.state.backoff == AddBackoff(s, b, p, c.pruneBackoff).backoff
            else r.state.backoff == s.backoff
  {
  }

  /** A GRAFT is penalised if and only if it comes before the backoff is over, and once more if it comes
      before the flood threshold. Peer exchange is lost by a GRAFT for an unknown bitmask, and by one that
      is refused to a direct peer, during backoff or for a negative score. */
  lemma GraftPenalises(c: Params, e: Env, s: State, p: PeerId, b: Bitmask, start: int, score: real)
    ensures var r := GraftOne(c, e, s, p, b, start, score);
            var early := r.reply && p !in e.direct && BackedOff(s, p, b, start);
            && (r.penalty > 0 <==> early) && r.penalty <= 2
            && (early ==> (r.penalty == 2 <==>
                             BackedOff(s, p, b, start + c.pruneBackoff - c.graftFloodThreshold)))
            && (!r.px <==> e.allowed(p, b)
                           && (b !in s.mesh || (r.reply && (p in e.direct || early || score < 0.0))))
  {
  }

  /** A PRUNE takes its sender out of the mesh and nobody else, and touches one backoff entry. */
  lemma PruneTakesOnlyTheSender(c: Params, s: State, p: PeerId, b: Bitmask, seconds: nat)
    ensures var s' := PruneOne(c, s, p, b, seconds);
            && s'.mesh.Keys == s.mesh.Keys && s'.fanout == s.fanout && s'.now == s.now
            && (forall b', q :: b' in s.mesh ==>
                  (q in s'.mesh[b'] <==> q in s.mesh[b'] && !(b' == b && q == p)))
            && OtherBackoffsSame(s, s', b)
            && (forall q :: q != p ==> (q in BackoffOf(s'.backoff, b) <==> q in BackoffOf(s.backoff, b)))
            && (forall q :: q != p && q in BackoffOf(s.backoff, b) ==>
                  BackoffOf(s'.backoff, b)[q] == BackoffOf(s.backoff, b)[q])
            && (b !in s.mesh ==> s' == s)
  {
    hide Seconds;
  }

  /** Joining moves a bitmask from the fanout to the mesh and changes nothing else. */
  lemma JoinMoves(c: Params, e: Env, s: State, s': State, b: Bitmask, first: PeerId -> real, second: PeerId -> real)
    requires b !in s.mesh && Join(c, e, s, s', b, first, second)
    ensures s'.mesh.Keys == s.mesh.Keys + {b} && (forall b' :: b' in s.mesh ==> s'.mesh[b'] == s.mesh[b'])
    ensures s'.fanout == s.fanout - {b} && s'.backoff == s.backoff && s'.now == s.now
  {
    hide Welcome, Pool, IsSelection, Candidate;
  }

  /** A peer of the fanout with a score and no backoff entry. */
  ghost predicate Stays(s: State, b: Bitmask, score: PeerId -> real, p: PeerId) {
    b in s.fanout && p in s.fanout[b] && score(p) >= 0.0 && p !in BackoffOf(s.backoff, b)
  }

  lemma WelcomeExact(s: State, b: Bitmask, score: PeerId -> real)
    ensures forall p :: p in Welcome(s, b, score) <==> Stays(s, b, score, p)
  {
  }

  /** Who is in the mesh after joining: every fanout peer with a non-negative score and no backoff entry; others
      only if they are available with a non-negative score, have no backoff entry and are no direct peers. */
  lemma JoinTakes(c: Params, e: Env, s: State, s': State, b: Bitmask, first: PeerId -> real, second: PeerId -> real,
                  p: PeerId)
    requires b !in s.mesh && Join(c, e, s, s', b, first, second)
    ensures Stays(s, b, first, p) ==> p in s'.mesh[b]
    ensures p in s'.mesh[b] && !Stays(s, b, first, p) ==>
              second(p) >= 0.0 && p !in BackoffOf(s.backoff, b) && p !in e.direct && p in e.meshCapable
  {
    WelcomeExact(s, b, first);
    var kept, bo := Welcome(s, b, first), BackoffOf(s.backoff, b);
    var f := Candidate(e, kept, bo, second);
    PoolFiltered(e, Slices(b), f);
    hide Welcome, Pool, Slices, Stays;
    if p in s'.mesh[b] && p !in kept {
      assert p in s'.mesh[b] - kept;
      assert f(p);
    }
  }

  lemma CandidateExact(e: Env, kept: set<PeerId>, bo: Expiries, score: PeerId -> real, p: PeerId)
    ensures Candidate(e, kept, bo, score)(p) <==> p !in kept && p !in bo && p !in e.direct && score(p) >= 0.0
  {
  }

  /** A mesh that is short of D members after joining was chosen with room to spare. */
  lemma JoinSelects(c: Params, e: Env, s: State, s': State, b: Bitmask, first: PeerId -> real, second: PeerId -> real)
    requires b !in s.mesh && Join(c, e, s, s', b, first, second) && |s'.mesh[b]| < c.D
    ensures var kept, bo := Welcome(s, b, first), BackoffOf(s.backoff, b);
            var more := s'.mesh[b] - kept;
            && |kept| + |more| < c.D
            && IsSelection(more, Pool(e, Slices(b), Candidate(e, kept, bo, second)), c.D - |kept|)
  {
    hide Welcome, Pool, Slices, BackoffOf, IsSelection, Candidate;
    var kept := Welcome(s, b, first);
    var more := s'.mesh[b] - kept;
    assert s'.mesh[b] == kept + more && |s'.mesh[b]| == |kept| + |more|;
  }

  /** A mesh with fewer than D members after joining has everybody who could have been taken. */
  lemma JoinHasEverybody(c: Params, e: Env, s: State, s': State, b: Bitmask, first: PeerId -> real,
                         second: PeerId -> real, p: PeerId)
    requires b !in s.mesh && Join(c, e, s, s', b, first, second) && |s'.mesh[b]| < c.D
    requires Available(e, b, p) && second(p) >= 0.0 && p !in BackoffOf(s.backoff, b) && p !in e.direct
    ensures p in s'.mesh[b]
  {
    hide Pool, Slices, Available, BackoffOf, IsSelection, Candidate;
    var kept, bo := Welcome(s, b, first), BackoffOf(s.backoff, b);
    hide Welcome;
    var more := s'.mesh[b] - kept;
    JoinSelects(c, e, s, s', b, first, second);
    if p !in kept {
      assert Candidate(e, kept, bo, second)(p) by { CandidateExact(e, kept, bo, second, p); }
      NobodyPassedOver(e, b, Candidate(e, kept, bo, second), more, c.D - |kept|, p);
    }
  }

  /** And it has at most D members, unless all of them were in the fanout. */
  lemma JoinIsBounded(c: Params, e: Env, s: State, s': State, b: Bitmask, first: PeerId -> real, second: PeerId -> real)
    requires b !in s.mesh && Join(c, e, s, s', b, first, second) && c.D > 0
    ensures |s'.mesh[b]| <= c.D || (b in s.fanout && s'.mesh[b] <= s.fanout[b])
  {
    var kept := Welcome(s, b, first);
    hide Pool, Slices, Candidate, BackoffOf;
    var more := s'.mesh[b] - kept;
    assert s'.mesh[b] == kept + more && |s'.mesh[b]| == |kept| + |more|;
    assert b !in s.fanout ==> kept == {};
  }

  // ------------------------------------------------------------- invariant

  /** No mesh member has a backoff entry that has not expired. */
  ghost predicate Safe(s: State) {
    forall b, p :: b in s.mesh && p in s.mesh[b] && p in BackoffOf(s.backoff, b) ==> BackoffOf(s.backoff, b)[p] <= s.now
  }

  /** The clock does not go back and an unexpired backoff entry is never lost or shortened. */
  ghost predicate Keeps(s: State, s': State) {
    && s.now <= s'.now
    && forall b, p :: p in BackoffOf(s.backoff, b) && s'.now < BackoffOf(s.backoff, b)[p] ==>
         p in BackoffOf(s'.backoff, b) && BackoffOf(s'.backoff, b)[p] >= BackoffOf(s.backoff, b)[p]
  }

  lemma KeepsTransitive(s: State, s1: State, s2: State)
    requires Keeps(s, s1) && Keeps(s1, s2)
    ensures Keeps(s, s2)
  {
    forall b, p | p in BackoffOf(s.backoff, b) && s2.now < BackoffOf(s.backoff, b)[p]
      ensures p in BackoffOf(s2.backoff, b) && BackoffOf(s2.backoff, b)[p] >= BackoffOf(s.backoff, b)[p]
    {
      assert p in BackoffOf(s1.backoff, b);
    }
  }

  lemma AddBackoffKeeps(s: State, b: Bitmask, p: PeerId, interval: int)
    ensures Keeps(s, AddBackoff(s, b, p, interval))
    ensures Safe(s) && (b in s.mesh ==> p !in s.mesh[b]) ==> Safe(AddBackoff(s, b, p, interval))
  {
  }

  lemma GraftOneSafe(c: Params, e: Env, s: State, p: PeerId, b: Bitmask, start: int, score: real)
    requires Safe(s) && start <= s.now
    ensures var s' := GraftOne(c, e, s, p, b, start, score).state; Safe(s') && Keeps(s, s')
  {
    AddBackoffKeeps(s, b, p, c.pruneBackoff);
  }

  lemma PruneOneSafe(c: Params, s: State, p: PeerId, b: Bitmask, seconds: nat)
    requires Safe(s)
    ensures var s' := PruneOne(c, s, p, b, seconds); Safe(s') && Keeps(s, s')
  {
    if b in s.mesh {
      var s1 := s.(mesh := s.mesh[b := s.mesh[b] - {p}]);
      assert Safe(s1) && Keeps(s, s1);
      AddBackoffKeeps(s1, b, p, if seconds > 0 then Seconds(seconds) else c.pruneBackoff);
    }
  }

  lemma ClearBackoffSafe(s: State)
    requires Safe(s)
    ensures Safe(ClearBackoff(s)) && Keeps(s, ClearBackoff(s))
  {
    ClearBackoffExact(s);
  }

  lemma LeaveSafe(c: Params, s: State, s': State, b: Bitmask)
    requires Safe(s) && Leave(c, s, s', b)
    ensures Safe(s') && Keeps(s, s')
  {
  }

  /** Leaving a bitmask takes its mesh away and no other, and backs off exactly its members, for the time of an
      unsubscription at least. */
  lemma LeaveExactly(c: Params, s: State, s': State, b: Bitmask, p: PeerId)
    requires b in s.mesh && Leave(c, s, s', b)
    ensures s'.mesh.Keys == s.mesh.Keys - {b} && (forall b' :: b' in s'.mesh ==> s'.mesh[b'] == s.mesh[b'])
    ensures var bo, bo' := BackoffOf(s.backoff, b), BackoffOf(s'.backoff, b);
            && (p in bo' <==> p in bo || p in s.mesh[b])
            && (p in s.mesh[b] ==> bo'[p] >= s.now + c.unsubscribeBackoff)
            && (p in bo && p !in s.mesh[b] ==> bo'[p] == bo[p])
  {
    assert Raised(BackoffOf(s.backoff, b), BackoffOf(s'.backoff, b), s.mesh[b], s.now, s'.now, c.unsubscribeBackoff);
  }

  lemma JoinSafe(c: Params, e: Env, s: State, s': State, b: Bitmask, first: PeerId -> real, second: PeerId -> real)
    requires Safe(s) && Join(c, e, s, s', b, first, second)
    ensures Safe(s') && Keeps(s, s')
  {
    if b !in s.mesh {
      var kept, bo := Welcome(s, b, first), BackoffOf(s.backoff, b);
      PoolFiltered(e, Slices(b), Candidate(e, kept, bo, second));
      forall p | p in s'.mesh[b] ensures p !in bo {
        if p !in kept {
          assert p in s'.mesh[b] - kept;
          assert Candidate(e, kept, bo, second)(p);
        }
      }
    }
  }

  /** What a maintained mesh means for the backoff entries. */
  lemma MaintainedBackoffs(c: Params, e: Env, b: Bitmask, m0: Mesh, m: Mesh, score: PeerId -> real)
    requires Sane(c) && Maintained(c, e, b, m0, m, score)
    ensures m0.now <= m.now && forall p :: p in m0.bo ==> p in m.bo && m.bo[p] >= m0.bo[p]
    ensures forall p :: p in m.peers && p in m.bo ==> p in m0.peers && p in m0.bo && m.bo[p] == m0.bo[p]
  {
    hide RightlyPruned, Pool, Candidate, AllNonNegative, Slices, FilledAndQuota;
    forall p | p in m.peers && p in m.bo ensures p in m0.peers && p in m0.bo && m.bo[p] == m0.bo[p] {
      assert p !in m.grafted && p !in m.pruned;
    }
  }

  lemma BeatSafe(c: Params, e: Env, s: State, s': State, b: Bitmask, m: Mesh, score: PeerId -> real)
    requires Safe(s) && Beat(c, e, s, s', b, m, score)
    ensures Safe(s') && Keeps(s, s')
  {
    hide Maintained;
    MaintainedBackoffs(c, e, b, MeshAt(s, b), m, score);
    forall b', p | b' in s'.mesh && p in s'.mesh[b'] && p in BackoffOf(s'.backoff, b')
      ensures BackoffOf(s'.backoff, b')[p] <= s'.now
    {
      assert p in s.mesh[b'] && p in BackoffOf(s.backoff, b');
    }
  }

  lemma StepSafe(c: Params, e: Env, s: State, ev: Event, s': State)
    requires Safe(s) && Step(c, e, s, ev, s')
    ensures Safe(s') && Keeps(s, s')
  {
    match ev
    case Ticked =>
    case FanoutChanged =>
    case Cleared => ClearBackoffSafe(s);
    case Grafted(p, b, start, score) => GraftOneSafe(c, e, s, p, b, start, score);
    case Pruned(p, b, seconds) => PruneOneSafe(c, s, p, b, seconds);
    case Removed(p) =>
    case Left(b) => LeaveSafe(c, s, s', b);
    case Joined(b, first, second) => JoinSafe(c, e, s, s', b, first, second);
    case Beaten(b, m, score) => BeatSafe(c, e, s, s', b, m, score);
  }

  // ------------------------------------------------------------ whole runs

  ghost predicate IsRun(c: Params, envs: seq<Env>, events: seq<Event>, run: seq<State>) {
    && |run| == |events| + 1 == |envs| + 1
    && run[0].mesh == map[] && run[0].backoff == map[]
    && forall i :: 0 <= i < |events| ==> Step(c, envs[i], run[i], events[i], run[i + 1])
  }

  lemma {:induction false} RunSafe(c: Params, envs: seq<Env>, events: seq<Event>, run: seq<State>, i: nat)
    requires IsRun(c, envs, events, run) && i < |run|
    ensures Safe(run[i])
  {
    hide Step;
    if i > 0 {
      RunSafe(c, envs, events, run, i - 1);
      StepSafe(c, envs[i - 1], run[i - 1], events[i - 1], run[i]);
    }
  }

  lemma {:induction false} RunKeeps(c: Params, envs: seq<Env>, events: seq<Event>, run: seq<State>, i: nat, j: nat)
    requires IsRun(c, envs, events, run) && i <= j < |run|
    ensures Keeps(run[i], run[j])
    decreases j
  {
    hide Step, Safe;
    if i < j {
      RunKeeps(c, envs, events, run, i, j - 1);
      RunSafe(c, envs, events, run, j - 1);
      StepSafe(c, envs[j - 1], run[j - 1], events[j - 1], run[j]);
      KeepsTransitive(run[i], run[j - 1], run[j]);
    }
  }

  /** Over every run of grafts, prunes, joins, leaves, heartbeats and disconnects: a peer with a
      backoff entry recorded at any point is in no mesh of that bitmask until the entry expires. */
  lemma BackoffIsRespected(c: Params, envs: seq<Env>, events: seq<Event>, run: seq<State>, i: nat, j: nat, b: Bitmask,
                           p: PeerId)
    requires IsRun(c, envs, events, run) && i <= j < |run|
    requires p in BackoffOf(run[i].backoff, b) && run[j].now < BackoffOf(run[i].backoff, b)[p]
    ensures b in run[j].mesh ==> p !in run[j].mesh[b]
  {
    hide IsRun;
    RunKeeps(c, envs, events, run, i, j);
    RunSafe(c, envs, events, run, j);
  }

  /** A PRUNE that asks for n seconds is obeyed if and only if n seconds do not overflow the 63 bits of
      a duration, or an earlier entry already lasts that long. */
  lemma PruneBackoffObeyed(c: Params, s: State, p: PeerId, b: Bitmask, n: nat)
    requires b in s.mesh && n > 0
    ensures var bo, bo' := BackoffOf(s.backoff, b), BackoffOf(PruneOne(c, s, p, b, n).backoff, b);
            && p in bo'
            && (bo'[p] >= s.now + n * SECOND <==>
                  n * SECOND < 0x8000_0000_0000_0000 || (p in bo && bo[p] >= s.now + n * SECOND))
  {
    SecondsExact(n);
    hide Seconds;
  }

  /** After a PRUNE that asks for 2^63 seconds a peer without an earlier entry is grafted back at once. */
  lemma PruneBackoffLost(c: Params, e: Env, s: State, p: PeerId, b: Bitmask, score: real)
    requires b in s.mesh && p in s.mesh[b] && p !in BackoffOf(s.backoff, b)
    requires e.allowed(p, b) && p !in e.direct && score >= 0.0 && |s.mesh[b]| <= c.Dhi
    ensures var s1 := PruneOne(c, s, p, b, 0x8000_0000_0000_0000);
            var r := GraftOne(c, e, s1, p, b, s1.now, score);
            p !in s1.mesh[b] && !r.reply && p in r.state.mesh[b]
  {
    SecondsWrap();
    assert |s.mesh[b] - {p}| == |s.mesh[b]| - 1;
  }

  /** Every way of being pruned records such an entry: a received PRUNE for a joined bitmask, which
      records the backoff that was asked for unless it overflows, leaving the bitmask, and the heartbeat. */
  lemma PruningIsRecorded(c: Params, e: Env, s: State, ev: Event, s': State, b: Bitmask, p: PeerId)
    requires Step(c, e, s, ev, s') && b in s.mesh
    ensures ev.Pruned? && ev.pb == b && ev.pp == p ==>
              && p in BackoffOf(s'.backoff, b) && p !in s'.mesh[b]
              && (ev.seconds == 0 ==> BackoffOf(s'.backoff, b)[p] >= s.now + c.pruneBackoff)
              && (0 < ev.seconds * SECOND < 0x8000_0000_0000_0000 ==>
                    BackoffOf(s'.backoff, b)[p] >= s.now + ev.seconds * SECOND)
    ensures ev.Left? && ev.lb == b && p in s.mesh[b] ==>
              && p in BackoffOf(s'.backoff, b) && b !in s'.mesh
              && BackoffOf(s'.backoff, b)[p] >= s.now + c.unsubscribeBackoff
    ensures ev.Beaten? && ev.bb == b && p in s.mesh[b] && p !in s'.mesh[b] ==>
              p in BackoffOf(s'.backoff, b) && BackoffOf(s'.backoff, b)[p] >= s.now + c.pruneBackoff
  {
    hide RightlyPruned, Pool, Candidate, AllNonNegative, FilledAndQuota, Seconds;
    if ev.Pruned? {
      SecondsExact(ev.seconds);
    }
  }
}

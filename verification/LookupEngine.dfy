/** The code of the lookup loop, proved to take the steps of the state machine in `Lookup`. */
module LookupEngine {
  import opened Identifiers
  import opened Options
  import opened SeqFacts
  import opened QueryPeersets
  import opened Lookup

  /** `peers` with their states, and the closest peers whatever their state. */
  datatype LookupResult = LookupResult(
    peers: seq<PeerId>, states: seq<PeerState>, closest: seq<PeerId>, completed: bool)

  class Query {
    const c: Config
    const queryPeers: QueryPeerset
    var ch: seq<Update>
    var workers: set<PeerId>
    var terminated: bool
    var cancelled: bool
    ghost var asked: seq<PeerId>
    ghost var reason: Option<Reason>

    ghost predicate Valid()
      reads this, queryPeers
    {
      && queryPeers.Valid() && queryPeers.distance == c.distance
      && (terminated <==> reason.Some?)
    }

    ghost function View(): State
      requires Valid()
      reads this, queryPeers
    {
      State(queryPeers.States(), ch, workers, asked, cancelled, reason, false)
    }

    constructor (c: Config, seeds: seq<PeerId>)
      ensures Valid() && Init(c, seeds, View()) && this.c == c
      ensures fresh(queryPeers)
    {
      this.c := c;
      queryPeers := new QueryPeerset(c.distance);
      ch := [Update(c.self, seeds, [], [])];
      workers, terminated, cancelled, asked, reason := {}, false, false, [], None;
    }

    /** The code panics exactly when `ApplyUpdate` is None, or after termination. */
    method UpdateState(up: Update)
      requires Valid() && !terminated
      requires ApplyUpdate(queryPeers.States(), c.self, up).Some?
      modifies queryPeers
      ensures Valid()
      ensures Some(queryPeers.States()) == ApplyUpdate(old(queryPeers.States()), c.self, up)
    {
      ghost var k0 := queryPeers.States();
      for i := 0 to |up.heard|
        invariant Valid()
        invariant queryPeers.States() == AddHeard(k0, c.self, up.heard[..i])
      {
        var p := up.heard[i];
        assert up.heard[..i + 1][..i] == up.heard[..i];
        if p != c.self {
          var _ := queryPeers.TryAdd(p, up.cause);
        }
      }
      assert up.heard[..|up.heard|] == up.heard;
      SettleAll(up.queried, Queried);
      SettleAll(up.unreachable, Unreachable);
    }

    method SettleAll(ps: seq<PeerId>, state: PeerState)
      requires Valid()
      requires Settle(queryPeers.States(), c.self, ps, state).Some?
      modifies queryPeers
      ensures Valid()
      ensures Some(queryPeers.States()) == Settle(old(queryPeers.States()), c.self, ps, state)
    {
      hide Settle;
      ghost var k0 := queryPeers.States();
      assert ps[..|ps|] == ps;
      SettleNone(k0, c.self, ps, state);
      for i := 0 to |ps|
        invariant Valid()
        invariant Settle(k0, c.self, ps[..i], state) == Some(queryPeers.States())
      {
        var p := ps[i];
        SettleNext(k0, c.self, ps, state, i);
        if p != c.self {
          queryPeers.SetState(p, state);
        }
      }
    }

    method IsStarvationTermination() returns (starved: bool)
      requires Valid()
      modifies queryPeers
      ensures Valid() && queryPeers.States() == old(queryPeers.States())
      ensures starved <==> InState(queryPeers.States(), {Heard}) == {} && InState(queryPeers.States(), {Waiting}) == {}
    {
      var heard := queryPeers.NumHeard();
      var waiting := queryPeers.NumWaiting();
      starved := heard == 0 && waiting == 0;
    }

    method IsLookupTermination() returns (done: bool, nearest: seq<PeerId>)
      requires Valid()
      modifies queryPeers
      ensures Valid() && queryPeers.States() == old(queryPeers.States())
      ensures IsClosest(nearest, queryPeers.States(), c.distance, c.beta, {Heard, Waiting, Queried})
      ensures done <==> AllQueried(queryPeers.States(), nearest)
    {
      nearest := queryPeers.GetClosestNInStates(c.beta, {Heard, Waiting, Queried});
      var states := StatesOf(nearest);
      for i := 0 to |nearest|
        modifies {}
        invariant forall j :: 0 <= j < i ==> states[j] == Queried
      {
        if states[i] != Queried {
          return false, nearest;
        }
      }
      done := true;
    }

    method StatesOf(ps: seq<PeerId>) returns (states: seq<PeerState>)
      requires Valid()
      requires Elems(ps) <= queryPeers.States().Keys
      ensures |states| == |ps|
      ensures forall i :: 0 <= i < |ps| ==> ps[i] in queryPeers.States() && states[i] == queryPeers.States()[ps[i]]
    {
      states := [];
      for i := 0 to |ps|
        invariant |states| == i
        invariant forall j :: 0 <= j < i ==> ps[j] in queryPeers.States() && states[j] == queryPeers.States()[ps[j]]
      {
        assert ps[i] in Elems(ps);
        var state := queryPeers.GetState(ps[i]);
        states := states + [state];
      }
    }

    static method TakeBatch(peers: seq<PeerId>, nPeersToQuery: int) returns (batch: seq<PeerId>)
      ensures batch == Batch(peers, nPeersToQuery)
    {
      batch := [];
      var count := 0;
      for i := 0 to |peers|
        invariant count == i && batch == peers[..i]
        invariant i == 0 || nPeersToQuery < 1 || i < nPeersToQuery
      {
        batch := batch + [peers[i]];
        count := count + 1;
        if count == nPeersToQuery {
          break;
        }
      }
    }

    method IsReadyToTerminate(nPeersToQuery: int)
        returns (verdict: Option<Reason>, batch: seq<PeerId>, ghost choice: Choice)
      requires Valid()
      modifies queryPeers
      ensures Valid() && queryPeers.States() == old(queryPeers.States())
      ensures choice.fromChannel
      ensures IsClosest(choice.nearest, queryPeers.States(), c.distance, c.beta, {Heard, Waiting, Queried})
      ensures IsClosest(choice.heard, queryPeers.States(), c.distance, |choice.heard|, {Heard})
      ensures Elems(choice.heard) == InState(queryPeers.States(), {Heard})
      ensures verdict == Verdict(queryPeers.States(), choice)
      ensures Reasoned(c, queryPeers.States(), choice.stop, verdict)
      ensures verdict.None? ==> batch == Batch(choice.heard, nPeersToQuery)
    {
      hide Reasoned, IsClosest;
      var stop: bool := *;
      var starved := IsStarvationTermination();
      var done, nearest := IsLookupTermination();
      var peers := queryPeers.GetClosestInStates({Heard});
      choice := Choice(true, stop, nearest, peers);
      VerdictIsReasoned(c, queryPeers.States(), choice);
      batch := TakeBatch(peers, nPeersToQuery);
      verdict := if stop then Some(Stopped) else if starved then Some(Starvation)
                 else if done then Some(Completed) else None;
    }

    /** Takes one update off the channel and applies it. */
    method Receive()
      requires Valid() && !terminated && ch != []
      requires ApplyUpdate(queryPeers.States(), c.self, ch[0]).Some?
      modifies this, queryPeers
      ensures Valid()
      ensures ApplyUpdate(old(View()).known, c.self, old(ch[0])) == Some(View().known)
      ensures View() == old(View()).(channel := old(ch)[1..]).(known := View().known)
    {
      var up := ch[0];
      ch := ch[1..];
      UpdateState(up);
    }

    /** The rest of a turn: terminate, or spawn the next batch. */
    method DecideAndSpawn(fromChannel: bool) returns (ghost choice: Choice)
      requires Valid() && !terminated
      modifies this, queryPeers
      ensures Valid()
      ensures choice.fromChannel == fromChannel && Decide(c, old(View()), View(), choice)
    {
      var waiting := queryPeers.NumWaiting();
      var verdict, batch;
      verdict, batch, choice := IsReadyToTerminate(c.alpha - waiting);
      choice := choice.(fromChannel := fromChannel);
      if !fromChannel {
        terminated, reason := true, Some(Cancelled);
      } else if verdict.Some? {
        terminated, reason := true, verdict;
      } else {
        BatchHeard(choice.heard, queryPeers.States(), c.alpha - waiting);
        SpawnAll(batch);
      }
    }

    /** One iteration of the loop of `run`. */
    method Iterate(fromChannel: bool) returns (ghost choice: Choice)
      requires Valid() && c.alpha >= 1 && Inv(c, View())
      requires !terminated
      requires if fromChannel then ch != [] else cancelled
      modifies this, queryPeers
      ensures Valid()
      ensures choice.fromChannel == fromChannel && Turn(c, old(View()), View(), choice)
    {
      if fromChannel {
        NoPanic(c, View());
        Receive();
      }
      choice := DecideAndSpawn(fromChannel);
    }

    method SpawnAll(batch: seq<PeerId>)
      requires Valid()
      requires forall p :: p in batch ==> p in queryPeers.States()
      modifies this, queryPeers
      ensures Valid() && Spawn(old(View()), View(), batch)
    {
      hide MarkWaiting, Elems;
      ghost var s := View();
      SpawnNone(s, batch[..0]);
      for i := 0 to |batch|
        invariant Valid()
        invariant Spawn(s, View(), batch[..i])
      {
        MarkOneMore(s.known, batch, i);
        SpawnedIn(s, View(), batch[..i], batch[i]);
        queryPeers.SetState(batch[i], Waiting);
        workers := workers + {batch[i]};
        asked := asked + [batch[i]];
      }
      assert batch[..|batch|] == batch;
    }

    /** A worker sends its result on the channel. */
    method WorkerReports(up: Update)
      requires Valid() && up.cause in workers && WorkerUpdate(c.self, up) && |ch| < c.alpha
      modifies this
      ensures Valid() && Report(c, old(View()), View(), up)
    {
      workers := workers - {up.cause};
      ch := ch + [up];
    }

    ghost predicate Looking(universe: set<PeerId>)
      reads this, queryPeers
    {
      Valid() && c.alpha >= 1 && Inv(c, View()) && Bounded(c, universe, View())
    }

    method TakeTurn(fromChannel: bool, universe: set<PeerId>)
      requires Looking(universe) && !terminated
      requires if fromChannel then ch != [] else cancelled
      modifies this, queryPeers
      ensures Looking(universe) && Rank(universe, View()) < old(Rank(universe, View()))
    {
      ghost var s := View();
      ghost var choice := Iterate(fromChannel);
      TurnKeepsInv(c, s, View(), choice);
      TurnLowersRank(c, universe, s, View(), choice);
    }

    method LetWorkerReport(universe: set<PeerId>)
      requires Looking(universe) && workers != {}
      modifies this, queryPeers
      ensures Looking(universe) && Rank(universe, View()) < old(Rank(universe, View()))
    {
      ghost var s := View();
      RoomToSend(c, s);
      var p :| p in workers;
      var answered: bool := *;
      var saw: seq<PeerId> :| forall q :: q in saw ==> q in universe;
      var up := if answered then Update(p, saw, [p], []) else Update(p, [], [], [p]);
      WorkerReports(up);
      ReportStays(c, universe, s, View(), up);
    }

    method CancelNow(universe: set<PeerId>)
      requires Looking(universe) && !cancelled
      modifies this
      ensures Looking(universe) && Rank(universe, View()) < old(Rank(universe, View()))
    {
      ghost var s := View();
      cancelled := true;
      assert View() == s.(cancelled := true);
    }

    /** `run`, with its workers interleaved in any order and cancellation at any time, over a
        finite universe of peers. It ends, and it ends for one of the four reasons. */
    method Run(universe: set<PeerId>)
      requires Looking(universe)
      modifies this, queryPeers
      ensures Looking(universe) && terminated
    {
      while !terminated
        invariant Looking(universe)
        decreases Rank(universe, View())
      {
        SomeoneWaits(c, View());
        var cancel: bool, report: bool, done: bool := *, *, *;
        if cancel && !cancelled {
          CancelNow(universe);
        } else if (report && workers != {}) || (!cancelled && ch == []) {
          LetWorkerReport(universe);
        } else {
          TakeTurn(!(cancelled && (done || ch == [])), universe);
        }
      }
    }

    /** The result handed to the caller: the K closest peers that are not unreachable, in order of
        distance and with their true states, the K closest of all, and whether the lookup ended in
        one of the two successful ways. */
    method ConstructLookupResult() returns (res: LookupResult, ghost nearest: seq<PeerId>)
      requires Valid()
      modifies queryPeers
      ensures Valid() && queryPeers.States() == old(queryPeers.States())
      ensures IsClosest(res.peers, queryPeers.States(), c.distance, c.bucketSize, {Heard, Waiting, Queried})
      ensures |res.states| == |res.peers|
      ensures forall i :: 0 <= i < |res.peers| ==>
                res.peers[i] in queryPeers.States() && res.states[i] == queryPeers.States()[res.peers[i]]
      ensures IsClosest(res.closest, queryPeers.States(), c.distance, c.bucketSize,
                        {Heard, Waiting, Queried, Unreachable})
      ensures IsClosest(nearest, queryPeers.States(), c.distance, c.beta, {Heard, Waiting, Queried})
      ensures res.completed <==>
                || AllQueried(queryPeers.States(), nearest)
                || (InState(queryPeers.States(), {Heard}) == {} && InState(queryPeers.States(), {Waiting}) == {})
      ensures Injective(c.distance) && Inv(c, View()) && (reason == Some(Completed) || reason == Some(Starvation)) ==>
                res.completed
    {
      hide Inv;
      var done, near := IsLookupTermination();
      nearest := near;
      CompletedIsSeen(c, View(), nearest);
      var starved := IsStarvationTermination();
      var peers := queryPeers.GetClosestNInStates(c.bucketSize, {Heard, Waiting, Queried});
      var states := StatesOf(peers);
      var closest := queryPeers.GetClosestNInStates(c.bucketSize, {Heard, Waiting, Queried, Unreachable});
      res := LookupResult(peers, states, closest, done || starved);
    }

    /** `runQuery`: the loop, and then the result. A lookup that ended by completion or starvation is
        completed, if no two peers are at the same distance. */
    method RunQuery(universe: set<PeerId>) returns (res: LookupResult)
      requires Looking(universe)
      modifies this, queryPeers
      ensures Looking(universe) && terminated && |res.states| == |res.peers|
      ensures IsClosest(res.peers, queryPeers.States(), c.distance, c.bucketSize, {Heard, Waiting, Queried})
      ensures Injective(c.distance) && (reason == Some(Completed) || reason == Some(Starvation)) ==> res.completed
    {
      hide Inv, Bounded, IsClosest, AllQueried, InState;
      Run(universe);
      ghost var s := View();
      ghost var nearest;
      res, nearest := ConstructLookupResult();
      assert View() == s;
    }
  }

  lemma CompletedIsSeen(c: Config, s: State, nearest: seq<PeerId>)
    requires IsClosest(nearest, s.known, c.distance, c.beta, {Heard, Waiting, Queried})
    ensures Injective(c.distance) && Inv(c, s) && (s.finished == Some(Completed) || s.finished == Some(Starvation)) ==>
              || AllQueried(s.known, nearest)
              || (InState(s.known, {Heard}) == {} && InState(s.known, {Waiting}) == {})
  {
    hide IsClosest, Working, Seeding, AllQueried, InState;
    if Injective(c.distance) && Inv(c, s) && (s.finished == Some(Completed) || s.finished == Some(Starvation)) {
      SuccessIsSeen(c, s, nearest);
    }
  }

  lemma BatchHeard(heard: seq<PeerId>, known: Known, budget: int)
    requires Elems(heard) == InState(known, {Heard})
    ensures forall p :: p in Batch(heard, budget) ==> p in known
  {
    forall p | p in Batch(heard, budget) ensures p in known {
      assert p in Elems(heard);
    }
  }

  lemma {:induction false} SettlePrefix(known: Known, self: PeerId, ps: seq<PeerId>, state: PeerState, i: nat)
    requires i <= |ps| && Settle(known, self, ps, state).Some?
    ensures Settle(known, self, ps[..i], state).Some?
    decreases |ps| - i
  {
    if i == |ps| {
      assert ps[..i] == ps;
    } else {
      SettlePrefix(known, self, ps, state, i + 1);
      assert ps[..i + 1][..i] == ps[..i];
    }
  }

  lemma SettleNone(known: Known, self: PeerId, ps: seq<PeerId>, state: PeerState)
    ensures Settle(known, self, ps[..0], state) == Some(known)
  {
  }

  lemma SettleNext(known: Known, self: PeerId, ps: seq<PeerId>, state: PeerState, i: nat)
    requires i < |ps| && Settle(known, self, ps, state).Some? && Settle(known, self, ps[..i], state).Some?
    ensures var k := Settle(known, self, ps[..i], state).value;
            if ps[i] == self then Settle(known, self, ps[..i + 1], state) == Some(k)
            else ps[i] in k && Settle(known, self, ps[..i + 1], state) == Some(k[ps[i] := state])
  {
    SettlePrefix(known, self, ps, state, i + 1);
    assert ps[..i + 1][..i] == ps[..i];
  }

  lemma SpawnNone(s: State, batch: seq<PeerId>)
    requires batch == []
    ensures Spawn(s, s, batch)
  {
    assert s.asked + batch == s.asked;
  }

  lemma SpawnedIn(s: State, s1: State, batch: seq<PeerId>, p: PeerId)
    requires Spawn(s, s1, batch) && p in s.known
    ensures p in s1.known
  {
  }

  lemma MarkOneMore(known: Known, batch: seq<PeerId>, i: nat)
    requires i < |batch| && batch[i] in known
    ensures MarkWaiting(known, batch[..i + 1]) == MarkWaiting(known, batch[..i])[batch[i] := Waiting]
    ensures Elems(batch[..i + 1]) == Elems(batch[..i]) + {batch[i]}
    ensures batch[..i + 1] == batch[..i] + [batch[i]]
  {
  }

  lemma NoPanic(c: Config, s: State)
    requires c.alpha >= 1 && Inv(c, s) && s.finished.None? && s.channel != []
    ensures ApplyUpdate(s.known, c.self, s.channel[0]).Some?
  {
    if Seeding(c, s) {
      SeedRead(c, s);
    } else {
      WorkerRead(c, s);
    }
  }

  lemma ReportStays(c: Config, universe: set<PeerId>, s: State, s': State, up: Update)
    requires Inv(c, s) && Bounded(c, universe, s) && Report(c, s, s', up)
    requires Elems(up.heard) <= universe
    ensures Inv(c, s') && Bounded(c, universe, s') && Rank(universe, s') < Rank(universe, s)
  {
    hide Inv, Rank, WorkerUpdate;
    ReportKeepsInv(c, s, s', up);
    ReportLowersRank(c, universe, s, s', up);
    assert HeardWithin(c, universe, s');
  }

  lemma SomeoneWaits(c: Config, s: State)
    requires Inv(c, s) && s.finished.None?
    ensures s.running != {} || s.channel != []
  {
    if !Seeding(c, s) {
      WorkersAccounted(c, s);
    }
  }

  lemma RoomToSend(c: Config, s: State)
    requires Inv(c, s) && s.running != {}
    ensures |s.channel| < c.alpha
  {
    WorkersAccounted(c, s);
  }
}

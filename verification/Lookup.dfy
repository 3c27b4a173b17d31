/** The asynchronous Kademlia lookup loop (go-libp2p-kad-dht/query.go) as a state machine:
    a main loop that reads worker results from a channel of capacity alpha, and workers that
    each query one peer and send one result. */
module Lookup {
  import opened Identifiers
  import opened Options
  import opened SeqFacts
  import opened QueryPeersets

  datatype Reason = Stopped | Completed | Starvation | Cancelled

  datatype Config = Config(self: PeerId, alpha: nat, beta: nat, bucketSize: nat, distance: PeerId -> nat)

  datatype Update = Update(cause: PeerId, heard: seq<PeerId>, queried: seq<PeerId>, unreachable: seq<PeerId>)

  /** `running` are the workers that have not sent their result yet, `asked` is the history of
      every query spawned, `finished` is set once by the main loop, and `panicked` records that
      `updateState` panicked. */
  datatype State = State(
    known: Known, channel: seq<Update>, running: set<PeerId>, asked: seq<PeerId>,
    cancelled: bool, finished: Option<Reason>, panicked: bool)

  // ---------------------------------------------------------------- updateState

  function AddHeard(known: Known, self: PeerId, heard: seq<PeerId>): (k: Known) {
    if heard == [] then known
    else
      var k, p := AddHeard(known, self, heard[..|heard| - 1]), heard[|heard| - 1];
      if p == self || p in k then k else k[p := Heard]
  }

  /** Moves every peer of `ps` from Waiting to `state`; None is the panic of `updateState`. */
  function Settle(known: Known, self: PeerId, ps: seq<PeerId>, state: PeerState): (k: Option<Known>) {
    if ps == [] then Some(known)
    else
      var p := ps[|ps| - 1];
      match Settle(known, self, ps[..|ps| - 1], state)
      case None => None
      case Some(k) =>
        if p == self then Some(k)
        else if p in k && k[p] == Waiting then Some(k[p := state])
        else None
  }

  function ApplyUpdate(known: Known, self: PeerId, up: Update): (k: Option<Known>) {
    match Settle(AddHeard(known, self, up.heard), self, up.queried, Queried)
    case None => None
    case Some(k) => Settle(k, self, up.unreachable, Unreachable)
  }

  /** Hearing of peers only adds new ones, as Heard, and never the local node. */
  lemma {:induction false} AddHeardOnlyAdds(known: Known, self: PeerId, heard: seq<PeerId>)
    ensures var k := AddHeard(known, self, heard);
            && k.Keys == known.Keys + (Elems(heard) - {self})
            && (forall p :: p in k ==> k[p] == if p in known then known[p] else Heard)
  {
    if heard != [] {
      var init, p := heard[..|heard| - 1], heard[|heard| - 1];
      AddHeardOnlyAdds(known, self, init);
      assert Elems(heard) == Elems(init) + {p};
    }
  }

  /** An update that only tells of peers makes exactly the new ones known, as Heard. */
  lemma HearsayApplies(known: Known, self: PeerId, up: Update)
    requires up.queried == [] && up.unreachable == []
    ensures var k := ApplyUpdate(known, self, up);
            && k.Some? && k.value.Keys == known.Keys + (Elems(up.heard) - {self})
            && forall p :: p in k.value ==> k.value[p] == if p in known then known[p] else Heard
  {
    AddHeardOnlyAdds(known, self, up.heard);
  }

  /** The panic of `updateState`: a peer that is not oneself and is not Waiting is said to be settled. */
  lemma SettleExactly(known: Known, self: PeerId, p: PeerId, state: PeerState)
    ensures Settle(known, self, [p], state)
            == if p == self then Some(known)
               else if p in known && known[p] == Waiting then Some(known[p := state]) else None
  {
    assert [p][..0] == [] && Settle(known, self, [p][..0], state) == Some(known);
  }

  // ------------------------------------------------------------------- the steps

  /** The spawn loop of `isReadyToTerminate`: it stops after `budget` peers because the count
      reaches the budget after an increment, so a budget below one stops nothing. */
  function Batch(heard: seq<PeerId>, budget: int): (batch: seq<PeerId>) {
    if 1 <= budget <= |heard| then heard[..budget] else heard
  }

  ghost function MarkWaiting(known: Known, batch: seq<PeerId>): Known {
    map p | p in known :: if p in batch then Waiting else known[p]
  }

  /** What one turn of the loop depends on besides the state: which `select` branch ran, what the
      stop function answered, and the order in which ties of distance were sorted. */
  datatype Choice = Choice(fromChannel: bool, stop: bool, nearest: seq<PeerId>, heard: seq<PeerId>)

  ghost predicate AllQueried(known: Known, ps: seq<PeerId>) {
    forall p :: p in ps ==> p in known && known[p] == Queried
  }

  ghost function Verdict(known: Known, ch: Choice): Option<Reason> {
    if ch.stop then Some(Stopped)
    else if InState(known, {Heard}) == {} && InState(known, {Waiting}) == {} then Some(Starvation)
    else if AllQueried(known, ch.nearest) then Some(Completed)
    else None
  }

  /** The part of a turn after the update was applied: decide, then spawn. */
  ghost predicate Decide(c: Config, s: State, s': State, ch: Choice) {
    && IsClosest(ch.nearest, s.known, c.distance, c.beta, {Heard, Waiting, Queried})
    && IsClosest(ch.heard, s.known, c.distance, |ch.heard|, {Heard})
    && Elems(ch.heard) == InState(s.known, {Heard})
    && var reason := if ch.fromChannel then Verdict(s.known, ch) else Some(Cancelled);
       if reason.Some? then s' == s.(finished := reason)
       else Spawn(s, s', Batch(ch.heard, c.alpha - |InState(s.known, {Waiting})|))
  }

  ghost predicate Spawn(s: State, s': State, batch: seq<PeerId>) {
    s' == s.(known := MarkWaiting(s.known, batch), running := s.running + Elems(batch), asked := s.asked + batch)
  }

  ghost predicate Turn(c: Config, s: State, s': State, ch: Choice) {
    && s.finished.None? && !s.panicked
    && (if ch.fromChannel then s.channel != [] else s.cancelled)
    && if ch.fromChannel then
         var rest := s.(channel := s.channel[1..]);
         match ApplyUpdate(s.known, c.self, s.channel[0])
         case None => s' == rest.(panicked := true)
         case Some(known) => Decide(c, rest.(known := known), s', ch)
       else Decide(c, s, s', ch)
  }

  /** The result of one worker: the peer was unreachable, or it answered with other peers. */
  ghost predicate WorkerUpdate(self: PeerId, up: Update) {
    || (up.heard == [] && up.queried == [] && up.unreachable == [up.cause])
    || (up.queried == [up.cause] && up.unreachable == [] && self !in up.heard)
  }

  ghost predicate Report(c: Config, s: State, s': State, up: Update) {
    && up.cause in s.running && WorkerUpdate(c.self, up)
    && |s.channel| < c.alpha
    && s' == s.(running := s.running - {up.cause}, channel := s.channel + [up])
  }

  ghost predicate Cancel(s: State, s': State) {
    !s.cancelled && s' == s.(cancelled := true)
  }

  ghost predicate Init(c: Config, seeds: seq<PeerId>, s: State) {
    s == State(map[], [Update(c.self, seeds, [], [])], {}, [], false, None, false)
  }

  ghost predicate Next(c: Config, s: State, s': State) {
    || (exists ch :: Turn(c, s, s', ch))
    || (exists up :: Report(c, s, s', up))
    || Cancel(s, s')
  }

  // ------------------------------------------------------------------ invariant

  ghost function Senders(channel: seq<Update>): set<PeerId> {
    set i | 0 <= i < |channel| :: channel[i].cause
  }

  ghost predicate DistinctSenders(channel: seq<Update>) {
    forall i, j :: 0 <= i < j < |channel| ==> channel[i].cause != channel[j].cause
  }

  /** Every waiting peer has exactly one worker, either still running or with its one result in
      the channel. */
  ghost predicate Accounted(self: PeerId, channel: seq<Update>, running: set<PeerId>, waiting: set<PeerId>) {
    && (forall i :: 0 <= i < |channel| ==> WorkerUpdate(self, channel[i]))
    && DistinctSenders(channel)
    && Senders(channel) !! running
    && Senders(channel) + running == waiting
  }

  /** The query history: no peer twice, and exactly the peers that left Heard. */
  ghost predicate AskedOnce(asked: seq<PeerId>, known: Known) {
    NoDup(asked) && Elems(asked) == InState(known, {Waiting, Queried, Unreachable})
  }

  ghost function WaitingPeers(s: State): set<PeerId> {
    InState(s.known, {Waiting})
  }

  /** Before the seed update is read there is nothing else in the system. */
  ghost predicate Seeding(c: Config, s: State) {
    && |s.channel| == 1 && s.channel[0].cause == c.self
    && s.channel[0].queried == [] && s.channel[0].unreachable == []
    && s.known == map[] && s.running == {} && s.asked == []
    && (s.finished == None || s.finished == Some(Cancelled))
  }

  ghost predicate Working(c: Config, s: State) {
    && c.self !in s.known
    && Accounted(c.self, s.channel, s.running, WaitingPeers(s))
    && |WaitingPeers(s)| <= c.alpha
    && (s.finished.None? ==> WaitingPeers(s) != {})
    && AskedOnce(s.asked, s.known)
  }

  /** What the termination reason promises about the peers known at the end. */
  ghost predicate Outcome(c: Config, s: State) {
    match s.finished
    case Some(Completed) =>
      exists ps :: IsClosest(ps, s.known, c.distance, c.beta, {Heard, Waiting, Queried}) && AllQueried(s.known, ps)
    case Some(Starvation) => InState(s.known, {Heard, Waiting}) == {}
    case _ => true
  }

  ghost predicate Inv(c: Config, s: State) {
    !s.panicked && (Seeding(c, s) || Working(c, s)) && Outcome(c, s)
  }

  lemma InitInv(c: Config, seeds: seq<PeerId>, s: State)
    requires Init(c, seeds, s)
    ensures Inv(c, s)
  {
  }

  lemma SendersPush(channel: seq<Update>, up: Update)
    ensures Senders(channel + [up]) == Senders(channel) + {up.cause}
  {
    var ch := channel + [up];
    assert ch[|channel|] == up;
    forall i | 0 <= i < |channel| ensures channel[i].cause in Senders(ch) {
      assert ch[i] == channel[i];
    }
  }

  lemma AccountedPush(self: PeerId, channel: seq<Update>, running: set<PeerId>, waiting: set<PeerId>, up: Update)
    requires Accounted(self, channel, running, waiting)
    requires up.cause in running && WorkerUpdate(self, up)
    ensures Accounted(self, channel + [up], running - {up.cause}, waiting)
  {
    SendersPush(channel, up);
    forall i | 0 <= i < |channel| ensures channel[i].cause != up.cause {
      assert channel[i].cause in Senders(channel);
    }
  }

  lemma AccountedPop(self: PeerId, channel: seq<Update>, running: set<PeerId>, waiting: set<PeerId>)
    requires Accounted(self, channel, running, waiting) && channel != []
    ensures channel[0].cause in waiting && WorkerUpdate(self, channel[0])
    ensures Accounted(self, channel[1..], running, waiting - {channel[0].cause})
  {
    SendersSplit(channel);
    assert channel[0].cause !in Senders(channel[1..]);
  }

  lemma {:induction false} SendersCard(channel: seq<Update>)
    requires DistinctSenders(channel)
    ensures |Senders(channel)| == |channel|
  {
    if channel != [] {
      var init, up := channel[..|channel| - 1], channel[|channel| - 1];
      SendersCard(init);
      assert channel == init + [up];
      SendersPush(init, up);
    }
  }

  lemma ReportKeepsInv(c: Config, s: State, s': State, up: Update)
    requires Inv(c, s) && Report(c, s, s', up)
    ensures Inv(c, s')
  {
    AccountedPush(c.self, s.channel, s.running, WaitingPeers(s), up);
  }

  /** Reading a worker's result moves exactly its sender out of Waiting; there is no panic. */
  lemma WorkerUpdateApplies(known: Known, self: PeerId, up: Update)
    requires WorkerUpdate(self, up)
    requires self !in known && up.cause in known && known[up.cause] == Waiting
    ensures var k := ApplyUpdate(known, self, up);
            && k.Some?
            && self !in k.value
            && (forall p :: p in known ==> p in k.value && (p != up.cause ==> k.value[p] == known[p]))
            && (forall p :: p in k.value && p !in known ==> k.value[p] == Heard)
            && k.value[up.cause] == (if up.queried == [] then Unreachable else Queried)
            && k.value.Keys == known.Keys + (Elems(up.heard) - {self})
  {
    AddHeardOnlyAdds(known, self, up.heard);
    var k1 := AddHeard(known, self, up.heard);
    if up.queried != [] {
      assert Settle(k1, self, up.queried[..0], Queried) == Some(k1);
      assert Settle(k1, self, up.queried, Queried) == Some(k1[up.cause := Queried]);
    } else {
      assert Settle(k1, self, up.unreachable[..0], Unreachable) == Some(k1);
      assert Settle(k1, self, up.unreachable, Unreachable) == Some(k1[up.cause := Unreachable]);
    }
  }

  /** A turn that applied an update leaves room for at least one more worker; `Ready` is the
      state between applying the update and deciding. */
  ghost predicate Ready(c: Config, s: State) {
    && c.self !in s.known
    && Accounted(c.self, s.channel, s.running, WaitingPeers(s))
    && |WaitingPeers(s)| < c.alpha
    && AskedOnce(s.asked, s.known)
    && s.finished.None? && !s.panicked
  }

  lemma SeedRead(c: Config, s: State)
    requires c.alpha >= 1 && Seeding(c, s) && s.finished.None? && !s.panicked
    ensures var k := ApplyUpdate(s.known, c.self, s.channel[0]);
            k.Some? && Ready(c, s.(channel := s.channel[1..], known := k.value))
  {
    AddHeardOnlyAdds(s.known, c.self, s.channel[0].heard);
    var k := AddHeard(s.known, c.self, s.channel[0].heard);
    assert InState(k, {Waiting}) == {};
    assert InState(k, {Waiting, Queried, Unreachable}) == {};
  }

  lemma WorkerRead(c: Config, s: State)
    requires Working(c, s) && s.finished.None? && !s.panicked && s.channel != []
    ensures var k := ApplyUpdate(s.known, c.self, s.channel[0]);
            k.Some? && Ready(c, s.(channel := s.channel[1..], known := k.value))
  {
    AccountedPop(c.self, s.channel, s.running, WaitingPeers(s));
    ReadStates(s.known, c.self, s.channel[0]);
  }

  lemma ReadStates(known: Known, self: PeerId, up: Update)
    requires WorkerUpdate(self, up)
    requires self !in known && up.cause in InState(known, {Waiting})
    ensures var k := ApplyUpdate(known, self, up);
            && k.Some? && self !in k.value
            && InState(k.value, {Waiting}) == InState(known, {Waiting}) - {up.cause}
            && InState(k.value, {Waiting, Queried, Unreachable}) == InState(known, {Waiting, Queried, Unreachable})
  {
    WorkerUpdateApplies(known, self, up);
  }

  lemma AskedSpawn(asked: seq<PeerId>, known: Known, batch: seq<PeerId>)
    requires AskedOnce(asked, known)
    requires NoDup(batch) && Elems(batch) <= InState(known, {Heard})
    ensures AskedOnce(asked + batch, MarkWaiting(known, batch))
  {
    forall i, j | 0 <= i < |asked| && 0 <= j < |batch| ensures asked[i] != batch[j] {
      assert asked[i] in Elems(asked) && batch[j] in Elems(batch);
    }
    assert Elems(asked + batch) == Elems(asked) + Elems(batch);
    MarkedStates(known, batch);
  }

  lemma MarkedStates(known: Known, batch: seq<PeerId>)
    requires Elems(batch) <= InState(known, {Heard})
    ensures var k := MarkWaiting(known, batch);
            && InState(k, {Waiting}) == InState(known, {Waiting}) + Elems(batch)
            && InState(k, {Waiting, Queried, Unreachable}) ==
               InState(known, {Waiting, Queried, Unreachable}) + Elems(batch)
  {
    forall p | p in batch ensures p in InState(known, {Heard}) {
      assert p in Elems(batch);
    }
  }

  lemma SpawnKeepsInv(c: Config, s: State, s': State, batch: seq<PeerId>)
    requires Ready(c, s) && Spawn(s, s', batch)
    requires NoDup(batch) && Elems(batch) <= InState(s.known, {Heard})
    requires |batch| <= c.alpha - |WaitingPeers(s)|
    requires WaitingPeers(s) != {} || batch != []
    ensures Working(c, s')
  {
    ElemsCard(batch);
    MarkedStates(s.known, batch);
    AskedSpawn(s.asked, s.known, batch);
    assert Elems(batch) !! WaitingPeers(s);
    assert batch != [] ==> batch[0] in Elems(batch);
  }

  /** The budget of a turn that read an update is at least one, so the batch respects it. */
  lemma BatchFits(heard: seq<PeerId>, known: Known, budget: int)
    requires NoDup(heard) && Elems(heard) == InState(known, {Heard}) && budget >= 1
    ensures var batch := Batch(heard, budget);
            && NoDup(batch) && Elems(batch) <= InState(known, {Heard})
            && |batch| <= budget
            && (batch == [] ==> InState(known, {Heard}) == {})
  {
    var batch := Batch(heard, budget);
    forall p | p in batch ensures p in Elems(heard) {
    }
  }

  lemma DecideSpawns(c: Config, s: State, s': State, heard: seq<PeerId>)
    requires Ready(c, s)
    requires NoDup(heard) && Elems(heard) == InState(s.known, {Heard})
    requires InState(s.known, {Heard}) != {} || WaitingPeers(s) != {}
    requires Spawn(s, s', Batch(heard, c.alpha - |WaitingPeers(s)|))
    ensures Working(c, s') && s'.finished.None? && !s'.panicked
  {
    hide Accounted, AskedOnce, MarkWaiting, Batch, NoDup, Elems;
    var budget := c.alpha - |WaitingPeers(s)|;
    BatchFits(heard, s.known, budget);
    SpawnKeepsInv(c, s, s', Batch(heard, budget));
  }

  lemma DecideKeepsInv(c: Config, s: State, s': State, ch: Choice)
    requires Ready(c, s) && ch.fromChannel && Decide(c, s, s', ch)
    ensures Inv(c, s')
  {
    hide Accounted, AskedOnce, DistanceSorted, MarkWaiting, Batch;
    if Verdict(s.known, ch).None? {
      DecideSpawns(c, s, s', ch.heard);
    } else {
      hide AllQueried;
      VerdictMeans(c, s, ch);
    }
  }

  lemma VerdictMeans(c: Config, s: State, ch: Choice)
    requires IsClosest(ch.nearest, s.known, c.distance, c.beta, {Heard, Waiting, Queried})
    ensures Outcome(c, s.(finished := Verdict(s.known, ch)))
  {
    assert InState(s.known, {Heard, Waiting}) == InState(s.known, {Heard}) + InState(s.known, {Waiting});
  }

  /** If no two peers are at the same distance, a lookup that completed or starved is seen to be complete
      by whoever asks again for the closest peers. */
  lemma SuccessIsSeen(c: Config, s: State, nearest: seq<PeerId>)
    requires Injective(c.distance) && Outcome(c, s) && (s.finished == Some(Completed) || s.finished == Some(Starvation))
    requires IsClosest(nearest, s.known, c.distance, c.beta, {Heard, Waiting, Queried})
    ensures || AllQueried(s.known, nearest)
            || (InState(s.known, {Heard}) == {} && InState(s.known, {Waiting}) == {})
  {
    if s.finished == Some(Completed) {
      hide IsClosest;
      var ps :| IsClosest(ps, s.known, c.distance, c.beta, {Heard, Waiting, Queried}) && AllQueried(s.known, ps);
      ClosestAgree(nearest, ps, s.known, c.distance, c.beta, {Heard, Waiting, Queried});
    } else {
      assert InState(s.known, {Heard, Waiting}) == InState(s.known, {Heard}) + InState(s.known, {Waiting});
    }
  }

  lemma TurnKeepsInv(c: Config, s: State, s': State, ch: Choice)
    requires c.alpha >= 1 && Inv(c, s) && Turn(c, s, s', ch)
    ensures Inv(c, s')
  {
    if ch.fromChannel {
      if Seeding(c, s) {
        SeedRead(c, s);
      } else {
        WorkerRead(c, s);
      }
      var k := ApplyUpdate(s.known, c.self, s.channel[0]).value;
      DecideKeepsInv(c, s.(channel := s.channel[1..]).(known := k), s', ch);
    }
  }

  lemma NextKeepsInv(c: Config, s: State, s': State)
    requires c.alpha >= 1 && Inv(c, s) && Next(c, s, s')
    ensures Inv(c, s')
  {
    hide Turn, Report, Accounted, AskedOnce, IsClosest, AllQueried;
    if ch :| Turn(c, s, s', ch) {
      TurnKeepsInv(c, s, s', ch);
    } else if up :| Report(c, s, s', up) {
      ReportKeepsInv(c, s, s', up);
    }
  }

  // ------------------------------------------------------- what a turn decides

  /** The batch is made of the closest Heard peers, and it fills the budget if there are enough of them. */
  lemma BatchIsClosest(heard: seq<PeerId>, known: Known, distance: PeerId -> nat, budget: nat)
    requires IsClosest(heard, known, distance, |heard|, {Heard}) && Elems(heard) == InState(known, {Heard})
    requires budget >= 1
    ensures IsClosest(Batch(heard, budget), known, distance, budget, {Heard})
  {
    hide InState;
    var batch := Batch(heard, budget);
    forall p, q | p in InState(known, {Heard}) && p !in batch
      ensures |batch| == budget && (q in batch ==> distance(q) <= distance(p))
    {
      assert p in Elems(heard);
      var i :| 0 <= i < |heard| && heard[i] == p;
      if q in batch {
        var j :| 0 <= j < |batch| && batch[j] == q;
        assert heard[j] == q;
      }
    }
    forall p | p in batch ensures p in Elems(heard) {
    }
  }

  ghost predicate Starved(known: Known) {
    forall p :: p in known ==> known[p] != Heard && known[p] != Waiting
  }

  /** Whichever way ties are broken, the beta closest peers have all been queried. */
  ghost predicate SurelyComplete(c: Config, known: Known) {
    forall ps :: IsClosest(ps, known, c.distance, c.beta, {Heard, Waiting, Queried}) ==> AllQueried(known, ps)
  }

  ghost predicate PossiblyComplete(c: Config, known: Known) {
    exists ps :: IsClosest(ps, known, c.distance, c.beta, {Heard, Waiting, Queried}) && AllQueried(known, ps)
  }

  /** The reason for which a turn ends the lookup, or None: the stop function first, then starvation, then
      completion. */
  ghost predicate Reasoned(c: Config, known: Known, stop: bool, reason: Option<Reason>) {
    && (reason == Some(Stopped) <==> stop)
    && (reason == Some(Starvation) <==> !stop && Starved(known))
    && (!stop && !Starved(known) && SurelyComplete(c, known) ==> reason == Some(Completed))
    && (reason == Some(Completed) ==> !stop && !Starved(known) && PossiblyComplete(c, known))
    && reason != Some(Cancelled)
  }

  lemma StarvedStates(known: Known)
    ensures Starved(known) <==> InState(known, {Heard}) == {} && InState(known, {Waiting}) == {}
  {
    if !Starved(known) {
      var p :| p in known && (known[p] == Heard || known[p] == Waiting);
      assert p in InState(known, {Heard}) || p in InState(known, {Waiting});
    }
  }

  lemma VerdictIsReasoned(c: Config, known: Known, ch: Choice)
    requires IsClosest(ch.nearest, known, c.distance, c.beta, {Heard, Waiting, Queried})
    ensures Reasoned(c, known, ch.stop, Verdict(known, ch))
  {
    hide IsClosest, AllQueried, InState, Starved;
    StarvedStates(known);
  }

  /** If no two peers are at the same distance, completion is decided by the states alone. */
  lemma CompletionIsExact(c: Config, known: Known)
    requires Injective(c.distance)
    ensures SurelyComplete(c, known) <==> PossiblyComplete(c, known)
  {
    hide IsClosest;
    ClosestExists(known, c.distance, c.beta, {Heard, Waiting, Queried});
    forall ps, qs | IsClosest(ps, known, c.distance, c.beta, {Heard, Waiting, Queried}) && AllQueried(known, ps)
                    && IsClosest(qs, known, c.distance, c.beta, {Heard, Waiting, Queried})
      ensures AllQueried(known, qs)
    {
      ClosestAgree(qs, ps, known, c.distance, c.beta, {Heard, Waiting, Queried});
    }
  }

  /** The workers that a turn starts: the closest Heard peers, as many as the budget allows, become Waiting,
      and no other peer changes. */
  ghost predicate Started(c: Config, s: State, known: Known, s': State)
    requires |InState(known, {Waiting})| < c.alpha
  {
    exists batch ::
      && IsClosest(batch, known, c.distance, c.alpha - |InState(known, {Waiting})|, {Heard})
      && s'.asked == s.asked + batch && s'.running == s.running + Elems(batch)
      && s'.known.Keys == known.Keys
      && forall p :: p in known ==> s'.known[p] == if p in batch then Waiting else known[p]
  }

  /** A turn that reads an update either ends the lookup for a reason, and then starts nobody, or goes on. */
  ghost predicate Decided(c: Config, s: State, known: Known, s': State, stop: bool)
    requires s.channel != []
  {
    && s'.channel == s.channel[1..] && s'.cancelled == s.cancelled && !s'.panicked
    && Reasoned(c, known, stop, s'.finished)
    && if s'.finished.Some? then s'.known == known && s'.asked == s.asked && s'.running == s.running
       else |InState(known, {Waiting})| < c.alpha && Started(c, s, known, s')
  }

  lemma DecideIsDecided(c: Config, s: State, r: State, s': State, ch: Choice)
    requires Ready(c, r) && s.channel != [] && r == s.(channel := s.channel[1..], known := r.known)
    requires ch.fromChannel && Decide(c, r, s', ch)
    ensures Decided(c, s, r.known, s', ch.stop)
  {
    hide Reasoned, Accounted, AskedOnce, IsClosest, InState;
    VerdictIsReasoned(c, r.known, ch);
    if Verdict(r.known, ch).None? {
      var budget := c.alpha - |InState(r.known, {Waiting})|;
      BatchIsClosest(ch.heard, r.known, c.distance, budget);
      StartedBy(c, s, r.known, s', Batch(ch.heard, budget));
    }
  }

  lemma StartedBy(c: Config, s: State, known: Known, s': State, batch: seq<PeerId>)
    requires |InState(known, {Waiting})| < c.alpha
    requires IsClosest(batch, known, c.distance, c.alpha - |InState(known, {Waiting})|, {Heard})
    requires s'.known == MarkWaiting(known, batch)
    requires s'.asked == s.asked + batch && s'.running == s.running + Elems(batch)
    ensures Started(c, s, known, s')
  {
    hide IsClosest, InState, Elems;
  }

  /** What every turn of the loop decides: a turn that reads a result stops if the stop function says so, or
      else if nobody is left to ask, or else if the beta closest peers have been queried, and it starts
      workers for the closest Heard peers otherwise; a turn that sees the cancellation only ends the lookup. */
  lemma TurnDecides(c: Config, s: State, s': State, ch: Choice)
    requires c.alpha >= 1 && Inv(c, s) && Turn(c, s, s', ch)
    ensures !ch.fromChannel ==> s' == s.(finished := Some(Cancelled))
    ensures ch.fromChannel ==>
              && s.channel != [] && ApplyUpdate(s.known, c.self, s.channel[0]).Some?
              && Decided(c, s, ApplyUpdate(s.known, c.self, s.channel[0]).value, s', ch.stop)
  {
    hide Decided, Ready, ApplyUpdate;
    if ch.fromChannel {
      if Seeding(c, s) {
        SeedRead(c, s);
      } else {
        WorkerRead(c, s);
      }
      var k := ApplyUpdate(s.known, c.self, s.channel[0]).value;
      hide Inv, Verdict, Spawn;
      DecideIsDecided(c, s, s.(channel := s.channel[1..]).(known := k), s', ch);
    }
  }

  // --------------------------------------------------------------- whole runs

  ghost predicate IsRun(c: Config, seeds: seq<PeerId>, run: seq<State>) {
    && run != [] && Init(c, seeds, run[0])
    && forall i :: 0 <= i < |run| - 1 ==> Next(c, run[i], run[i + 1])
  }

  lemma {:induction false} RunInv(c: Config, seeds: seq<PeerId>, run: seq<State>, i: nat)
    requires c.alpha >= 1 && IsRun(c, seeds, run) && i < |run|
    ensures Inv(c, run[i])
  {
    hide Inv, Next;
    if i == 0 {
      InitInv(c, seeds, run[0]);
    } else {
      RunInv(c, seeds, run, i - 1);
      assert Next(c, run[i - 1], run[i - 1 + 1]);
      NextKeepsInv(c, run[i - 1], run[i]);
    }
  }

  lemma WorkersAccounted(c: Config, s: State)
    requires Working(c, s)
    ensures |WaitingPeers(s)| == |s.running| + |s.channel|
  {
    SendersCard(s.channel);
    assert |Senders(s.channel) + s.running| == |Senders(s.channel)| + |s.running|;
  }

  /** In every state of every run, also after the loop has ended: `updateState` has not panicked,
      no peer was queried twice, at most alpha peers wait, each of them is a running worker or an
      unread result, so every worker still running finds room for its one send, and the next
      result to be read names a waiting peer. */
  lemma LookupSafety(c: Config, seeds: seq<PeerId>, run: seq<State>, i: nat)
    requires c.alpha >= 1 && IsRun(c, seeds, run) && i < |run|
    ensures var s := run[i];
            && !s.panicked
            && NoDup(s.asked)
            && |WaitingPeers(s)| <= c.alpha
            && (!Seeding(c, s) ==> |WaitingPeers(s)| == |s.running| + |s.channel|)
            && (s.running != {} ==> |s.channel| + |s.running| <= c.alpha)
            && (!Seeding(c, s) && s.channel != [] ==> s.channel[0].cause in WaitingPeers(s))
  {
    RunInv(c, seeds, run, i);
    var s := run[i];
    if !Seeding(c, s) {
      WorkersAccounted(c, s);
      if s.channel != [] {
        AccountedPop(c.self, s.channel, s.running, WaitingPeers(s));
      }
    }
  }

  // -------------------------------------------------------------- termination

  ghost predicate HeardWithin(c: Config, universe: set<PeerId>, s: State) {
    forall i :: 0 <= i < |s.channel| ==> Elems(s.channel[i].heard) <= universe + {c.self}
  }

  /** Work left: two steps for a peer that has not reported, one for an unread result. */
  ghost function Rank(universe: set<PeerId>, s: State): nat {
    2 * |Unreported(universe, s.known, s.channel)| + |s.channel|
    + (if s.cancelled then 0 else 1) + (if s.finished.Some? then 0 else 1)
  }

  ghost function Unreported(universe: set<PeerId>, known: Known, channel: seq<Update>): set<PeerId> {
    universe - InState(known, {Queried, Unreachable}) - Senders(channel)
  }

  ghost predicate Bounded(c: Config, universe: set<PeerId>, s: State) {
    c.self !in universe && s.known.Keys <= universe && HeardWithin(c, universe, s)
  }

  lemma SpawnKeepsRank(universe: set<PeerId>, s: State, s': State, batch: seq<PeerId>)
    requires Spawn(s, s', batch)
    requires forall p :: p in batch && p in s.known ==> s.known[p] == Heard
    ensures Unreported(universe, s'.known, s'.channel) == Unreported(universe, s.known, s.channel)
    ensures s'.known.Keys == s.known.Keys
  {
    assert InState(s'.known, {Queried, Unreachable}) == InState(s.known, {Queried, Unreachable});
  }

  lemma DecideKeepsRank(c: Config, universe: set<PeerId>, s: State, s': State, ch: Choice)
    requires Decide(c, s, s', ch) && s.finished.None?
    ensures Unreported(universe, s'.known, s'.channel) == Unreported(universe, s.known, s.channel)
    ensures s'.known.Keys == s.known.Keys && s'.channel == s.channel && s'.cancelled == s.cancelled
    ensures !ch.fromChannel ==> s'.finished.Some?
  {
    if ch.fromChannel && Verdict(s.known, ch).None? {
      var batch := Batch(ch.heard, c.alpha - |InState(s.known, {Waiting})|);
      forall p | p in batch ensures p in InState(s.known, {Heard}) {
        assert p in Elems(ch.heard);
      }
      SpawnKeepsRank(universe, s, s', batch);
    }
  }

  lemma WorkerReadKeepsUnreported(c: Config, universe: set<PeerId>, s: State)
    requires Working(c, s) && s.channel != []
    requires Bounded(c, universe, s)
    ensures var k := ApplyUpdate(s.known, c.self, s.channel[0]);
            && k.Some?
            && Unreported(universe, k.value, s.channel[1..]) == Unreported(universe, s.known, s.channel)
            && k.value.Keys <= universe
  {
    hide InState, Senders, ApplyUpdate, Accounted, AskedOnce, WorkerUpdate;
    AccountedPop(c.self, s.channel, s.running, WaitingPeers(s));
    ReadFinishes(s.known, c.self, s.channel[0]);
    SendersSplit(s.channel);
    assert Elems(s.channel[0].heard) <= universe + {c.self};
    var k := ApplyUpdate(s.known, c.self, s.channel[0]).value;
    MoveReport(universe, InState(s.known, {Queried, Unreachable}), Senders(s.channel[1..]), s.channel[0].cause);
    assert Senders(s.channel) == Senders(s.channel[1..]) + {s.channel[0].cause};
  }

  lemma MoveReport(universe: set<PeerId>, settled: set<PeerId>, senders: set<PeerId>, p: PeerId)
    ensures universe - (settled + {p}) - senders == universe - settled - (senders + {p})
  {
  }

  lemma ReadFinishes(known: Known, self: PeerId, up: Update)
    requires WorkerUpdate(self, up)
    requires self !in known && up.cause in InState(known, {Waiting})
    ensures var k := ApplyUpdate(known, self, up);
            && k.Some?
            && InState(k.value, {Queried, Unreachable}) == InState(known, {Queried, Unreachable}) + {up.cause}
            && k.value.Keys == known.Keys + (Elems(up.heard) - {self})
  {
    WorkerUpdateApplies(known, self, up);
  }

  lemma SendersSplit(channel: seq<Update>)
    requires channel != []
    ensures Senders(channel) == {channel[0].cause} + Senders(channel[1..])
  {
    var rest := channel[1..];
    forall i | 1 <= i < |channel| ensures channel[i].cause in Senders(rest) {
      assert rest[i - 1] == channel[i];
    }
    assert channel[0].cause in Senders(channel);
  }

  lemma TurnLowersRank(c: Config, universe: set<PeerId>, s: State, s': State, ch: Choice)
    requires c.alpha >= 1 && Inv(c, s) && Turn(c, s, s', ch)
    requires Bounded(c, universe, s)
    ensures Rank(universe, s') < Rank(universe, s) && Bounded(c, universe, s')
  {
    hide Unreported, Decide, ApplyUpdate;
    if !ch.fromChannel {
      DecideKeepsRank(c, universe, s, s', ch);
    } else {
      ReadKeepsUnreported(c, universe, s);
      var k := ApplyUpdate(s.known, c.self, s.channel[0]).value;
      var r := s.(channel := s.channel[1..]).(known := k);
      hide Inv;
      DecideKeepsRank(c, universe, r, s', ch);
      assert HeardWithin(c, universe, r);
    }
  }

  lemma ReadKeepsUnreported(c: Config, universe: set<PeerId>, s: State)
    requires Inv(c, s) && s.channel != [] && Bounded(c, universe, s)
    ensures var k := ApplyUpdate(s.known, c.self, s.channel[0]);
            && k.Some?
            && Unreported(universe, k.value, s.channel[1..]) == Unreported(universe, s.known, s.channel)
            && k.value.Keys <= universe
  {
    hide Unreported, ApplyUpdate, Bounded, Outcome;
    if Seeding(c, s) {
      SeedReadKeepsUnreported(c, universe, s);
    } else {
      WorkerReadKeepsUnreported(c, universe, s);
    }
  }

  lemma SeedReadKeepsUnreported(c: Config, universe: set<PeerId>, s: State)
    requires Seeding(c, s) && Bounded(c, universe, s)
    ensures var k := ApplyUpdate(s.known, c.self, s.channel[0]);
            && k.Some?
            && Unreported(universe, k.value, s.channel[1..]) == Unreported(universe, s.known, s.channel)
            && k.value.Keys <= universe
  {
    AddHeardOnlyAdds(s.known, c.self, s.channel[0].heard);
    assert Senders(s.channel) == {c.self};
    var k := AddHeard(s.known, c.self, s.channel[0].heard);
    assert InState(k, {Queried, Unreachable}) == {};
  }

  lemma ReportLowersRank(c: Config, universe: set<PeerId>, s: State, s': State, up: Update)
    requires Inv(c, s) && Report(c, s, s', up)
    requires Bounded(c, universe, s)
    ensures Rank(universe, s') < Rank(universe, s)
  {
    hide Inv, Bounded, WorkerUpdate;
    RunningIsUnreported(c, universe, s, up.cause);
    UnreportedPush(universe, s.known, s.channel, up);
    hide Unreported;
  }

  lemma UnreportedPush(universe: set<PeerId>, known: Known, channel: seq<Update>, up: Update)
    ensures Unreported(universe, known, channel + [up]) == Unreported(universe, known, channel) - {up.cause}
  {
    hide Senders, InState;
    SendersPush(channel, up);
  }

  /** A running worker asks a waiting peer that has not reported. */
  lemma RunningIsUnreported(c: Config, universe: set<PeerId>, s: State, p: PeerId)
    requires Inv(c, s) && Bounded(c, universe, s) && p in s.running
    ensures p in Unreported(universe, s.known, s.channel)
  {
    assert p in WaitingPeers(s);
  }

  lemma NextLowersRank(c: Config, universe: set<PeerId>, s: State, s': State)
    requires c.alpha >= 1 && Inv(c, s) && Next(c, s, s')
    requires Bounded(c, universe, s) && HeardWithin(c, universe, s')
    ensures Rank(universe, s') < Rank(universe, s) && Bounded(c, universe, s')
  {
    hide Inv, Turn, Unreported, HeardWithin;
    if ch :| Turn(c, s, s', ch) {
      TurnLowersRank(c, universe, s, s', ch);
    } else if up :| Report(c, s, s', up) {
      ReportLowersRank(c, universe, s, s', up);
    }
  }

  lemma InitRank(c: Config, seeds: seq<PeerId>, universe: set<PeerId>, s: State)
    requires Init(c, seeds, s)
    ensures s.known.Keys == {} && Rank(universe, s) <= 2 * |universe| + 3
  {
    SubsetCard(Unreported(universe, s.known, s.channel), universe);
  }

  lemma {:induction false} RankAlongRun(c: Config, seeds: seq<PeerId>, universe: set<PeerId>, run: seq<State>, i: nat)
    requires c.alpha >= 1 && IsRun(c, seeds, run) && i < |run|
    requires c.self !in universe
    requires forall j :: 0 <= j < |run| ==> HeardWithin(c, universe, run[j])
    ensures Bounded(c, universe, run[i])
    ensures Rank(universe, run[i]) + i <= 2 * |universe| + 3
  {
    hide Inv, Next, Rank;
    if i == 0 {
      InitRank(c, seeds, universe, run[0]);
    } else {
      hide HeardWithin;
      RankAlongRun(c, seeds, universe, run, i - 1);
      RunInv(c, seeds, run, i - 1);
      assert Next(c, run[i - 1], run[i - 1 + 1]);
      NextLowersRank(c, universe, run[i - 1], run[i]);
    }
  }

  /** A lookup over a finite universe of peers takes boundedly many steps. */
  lemma LookupEnds(c: Config, seeds: seq<PeerId>, universe: set<PeerId>, run: seq<State>)
    requires c.alpha >= 1 && IsRun(c, seeds, run)
    requires c.self !in universe
    requires forall j :: 0 <= j < |run| ==> HeardWithin(c, universe, run[j])
    ensures |run| <= 2 * |universe| + 4
  {
    RankAlongRun(c, seeds, universe, run, |run| - 1);
  }

  /** No reachable state is stuck: until the loop has ended and every worker has reported, either
      the loop can take a turn or a worker can send, without any help from cancellation. */
  lemma LookupProgress(c: Config, seeds: seq<PeerId>, run: seq<State>, i: nat)
    requires c.alpha >= 1 && IsRun(c, seeds, run) && i < |run|
    requires run[i].finished.None? || run[i].running != {}
    ensures || (exists s', ch: Choice :: ch.fromChannel && Turn(c, run[i], s', ch))
            || (exists s', up :: Report(c, run[i], s', up))
  {
    RunInv(c, seeds, run, i);
    var s := run[i];
    LookupSafety(c, seeds, run, i);
    if s.running != {} {
      var p :| p in s.running;
      var up := Update(p, [], [], [p]);
      assert Report(c, s, s.(running := s.running - {p}, channel := s.channel + [up]), up);
    } else {
      var k := ReadableKnown(c, s);
      var s', ch := DecideEnabled(c, s.(channel := s.channel[1..]).(known := k));
      assert Turn(c, s, s', ch);
    }
  }

  lemma ReadableKnown(c: Config, s: State) returns (k: Known)
    requires c.alpha >= 1 && Inv(c, s) && s.finished.None? && s.running == {}
    ensures s.channel != [] && ApplyUpdate(s.known, c.self, s.channel[0]) == Some(k)
  {
    if Seeding(c, s) {
      SeedRead(c, s);
    } else {
      WorkersAccounted(c, s);
      WorkerRead(c, s);
    }
    k := ApplyUpdate(s.known, c.self, s.channel[0]).value;
  }

  lemma DecideEnabled(c: Config, s: State) returns (s': State, ch: Choice)
    ensures ch.fromChannel && Decide(c, s, s', ch)
  {
    ClosestExists(s.known, c.distance, c.beta, {Heard, Waiting, Queried});
    var nearest :| IsClosest(nearest, s.known, c.distance, c.beta, {Heard, Waiting, Queried});
    var n := |InState(s.known, {Heard})|;
    ClosestExists(s.known, c.distance, n, {Heard});
    var heard :| IsClosest(heard, s.known, c.distance, n, {Heard});
    ClosestWhenAllFit(heard, s.known, c.distance, n, {Heard});
    ch := Choice(true, false, nearest, heard);
    var reason := Verdict(s.known, ch);
    if reason.Some? {
      s' := s.(finished := reason);
    } else {
      var batch := Batch(heard, c.alpha - |InState(s.known, {Waiting})|);
      s' := s.(known := MarkWaiting(s.known, batch), running := s.running + Elems(batch), asked := s.asked + batch);
    }
  }

  /** A lookup that ended because it completed has queried the beta closest peers it knows that
      are not unreachable; one that starved has nobody left to ask or to wait for. */
  lemma LookupOutcome(c: Config, seeds: seq<PeerId>, run: seq<State>, i: nat)
    requires c.alpha >= 1 && IsRun(c, seeds, run) && i < |run|
    ensures run[i].finished == Some(Completed) ==>
              exists ps :: IsClosest(ps, run[i].known, c.distance, c.beta, {Heard, Waiting, Queried}) &&
                           AllQueried(run[i].known, ps)
    ensures run[i].finished == Some(Starvation) ==>
              forall p :: p in run[i].known ==> run[i].known[p] == Queried || run[i].known[p] == Unreachable
  {
    RunInv(c, seeds, run, i);
    if run[i].finished == Some(Starvation) {
      forall p | p in run[i].known ensures run[i].known[p] == Queried || run[i].known[p] == Unreachable {
        assert p !in InState(run[i].known, {Heard, Waiting});
      }
    }
  }
}

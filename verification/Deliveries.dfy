/** Delivery records for peer scoring: a map of records and a queue of their expiries
    (go-libp2p-blossomsub/score.go). */
module Deliveries {
  import opened Identifiers
  import opened Options

  type Id(==, !new)

  datatype Status = Unknown | Valid | Invalid | Ignored | Throttled

  /** `peers` is None where the code has set the map to nil. `credits` counts the duplicate credits that
      were given for this record; it is not stored by the code. */
  datatype Record = Record(status: Status, peers: Option<set<PeerId>>, credits: multiset<PeerId>)

  datatype Pending = Pending(id: Id, expire: int)

  datatype State = State(records: map<Id, Record>, queue: seq<Pending>, now: int)

  /** The score marks an operation makes: first deliveries, duplicate credits and invalid deliveries. */
  datatype Marks = Marks(first: multiset<PeerId>, dup: multiset<PeerId>, invalid: multiset<PeerId>)

  const NoMarks := Marks(multiset{}, multiset{}, multiset{})
  const NewRecord := Record(Unknown, Some({}), multiset{})

  /** Why a message was rejected: with an obvious fault, before it was looked at, or in validation. */
  datatype Reason = Faulty | Unseen | ValidationThrottled | ValidationIgnored | ValidationFailed

  // ------------------------------------------------------------- operations

  /** `getRecord`. */
  function Touch(s: State, id: Id, ttl: nat, now: int): (s': State)
    ensures id in s'.records
  {
    if id in s.records then s.(now := now)
    else State(s.records[id := NewRecord], s.queue + [Pending(id, now + ttl)], now)
  }

  function Update(s: State, id: Id, r: Record): State {
    s.(records := s.records[id := r])
  }

  function Deliver(s: State, id: Id, from: PeerId, ttl: nat, now: int): (r: (State, Marks)) {
    var s1 := Touch(s, id, ttl, now);
    var rec := s1.records[id];
    var first := NoMarks.(first := multiset{from});
    if rec.status != Unknown then (s1, first)
    else
      var dup := multiset((if rec.peers.Some? then rec.peers.value else {}) - {from});
      (Update(s1, id, rec.(status := Valid, credits := rec.credits + dup)), first.(dup := dup))
  }

  function Reject(s: State, id: Id, from: PeerId, reason: Reason, ttl: nat, now: int): (r: (State, Marks)) {
    match reason
    case Faulty => (s, NoMarks.(invalid := multiset{from}))
    case Unseen => (s, NoMarks)
    case _ =>
      var s1 := Touch(s, id, ttl, now);
      var rec := s1.records[id];
      if rec.status != Unknown then (s1, NoMarks)
      else if reason.ValidationThrottled? then (Update(s1, id, rec.(status := Throttled, peers := None)), NoMarks)
      else if reason.ValidationIgnored? then (Update(s1, id, rec.(status := Ignored, peers := None)), NoMarks)
      else
        var forwarders := multiset(if rec.peers.Some? then rec.peers.value else {});
        (Update(s1, id, rec.(status := Invalid, peers := None)), NoMarks.(invalid := multiset{from} + forwarders))
  }

  /** The peers map must not be nil where a peer is added to it. */
  predicate Writable(rec: Record) {
    rec.status in {Unknown, Valid} ==> rec.peers.Some?
  }

  function Duplicate(s: State, id: Id, from: PeerId, ttl: nat, now: int): (r: (State, Marks))
    requires id in s.records ==> Writable(s.records[id])
  {
    var s1 := Touch(s, id, ttl, now);
    var rec := s1.records[id];
    if rec.peers.Some? && from in rec.peers.value then (s1, NoMarks)
    else
      match rec.status
      case Unknown => (Update(s1, id, rec.(peers := Some(rec.peers.value + {from}))), NoMarks)
      case Valid =>
        (Update(s1, id, rec.(peers := Some(rec.peers.value + {from}), credits := rec.credits + multiset{from})),
         NoMarks.(dup := multiset{from}))
      case Invalid => (s1, NoMarks.(invalid := multiset{from}))
      case _ => (s1, NoMarks)
  }

  /** How many entries at the head of the queue have expired. */
  function Expired(queue: seq<Pending>, now: int): (n: nat)
    ensures n <= |queue|
    ensures forall i :: 0 <= i < n ==> now > queue[i].expire
    ensures n < |queue| ==> now <= queue[n].expire
  {
    if queue == [] || now <= queue[0].expire then 0 else 1 + Expired(queue[1..], now)
  }

  function IdsOf(queue: seq<Pending>): set<Id> {
    set p | p in queue :: p.id
  }

  function Collect(s: State, now: int): State {
    var n := Expired(s.queue, now);
    State(s.records - IdsOf(s.queue[..n]), s.queue[n..], now)
  }

  // -------------------------------------------------------------- invariant

  ghost predicate Queued(s: State) {
    && (forall i, j :: 0 <= i < j < |s.queue| ==> s.queue[i].id != s.queue[j].id)
    && IdsOf(s.queue) == s.records.Keys
  }

  ghost predicate Ordered(s: State, ttl: nat) {
    && (forall i, j :: 0 <= i < j < |s.queue| ==> s.queue[i].expire <= s.queue[j].expire)
    && forall i :: 0 <= i < |s.queue| ==> s.queue[i].expire <= s.now + ttl
  }

  /** nil peers exactly in the final states that are not valid; a peer is credited at most once, and
      only after it is in the peers of a valid record. */
  ghost predicate Sound(rec: Record) {
    && (rec.peers.None? <==> rec.status in {Invalid, Ignored, Throttled})
    && (rec.status != Valid ==> rec.credits == multiset{})
    && (forall p :: rec.credits[p] <= 1 && (p in rec.credits ==> rec.peers.Some? && p in rec.peers.value))
  }

  ghost predicate AllSound(s: State) {
    forall id :: id in s.records ==> Sound(s.records[id])
  }

  ghost predicate Inv(s: State, ttl: nat) {
    Queued(s) && Ordered(s, ttl) && AllSound(s)
  }

  /** In an operation on `about`, the record of i keeps its status once it is known, and gains exactly the
      duplicate credits that were given, if it is the record the operation is about. */
  ghost predicate Follows(s: State, s': State, about: Id, i: Id, marks: Marks) {
    i in s'.records ==>
      && (i in s.records && s.records[i].status != Unknown ==> s'.records[i].status == s.records[i].status)
      && s'.records[i].credits == CreditsOf(s, i) + if i == about then marks.dup else multiset{}
  }

  function CreditsOf(s: State, id: Id): multiset<PeerId> {
    if id in s.records then s.records[id].credits else multiset{}
  }

  lemma TouchKeeps(s: State, id: Id, ttl: nat, now: int)
    requires Inv(s, ttl) && s.now <= now
    ensures Inv(Touch(s, id, ttl, now), ttl)
    ensures forall i :: Follows(s, Touch(s, id, ttl, now), id, i, NoMarks)
  {
    if id !in s.records {
      NewQueued(s, id, ttl, now);
    }
    hide Queued, IdsOf;
    TouchFollows(s, id, ttl, now);
    hide Follows;
  }

  lemma TouchFollows(s: State, id: Id, ttl: nat, now: int)
    ensures forall i :: Follows(s, Touch(s, id, ttl, now), id, i, NoMarks)
  {
  }

  lemma NewQueued(s: State, id: Id, ttl: nat, now: int)
    requires Queued(s) && id !in s.records
    ensures Queued(Touch(s, id, ttl, now))
  {
    var s' := Touch(s, id, ttl, now);
    assert id !in IdsOf(s.queue);
    forall i | 0 <= i < |s.queue| ensures s.queue[i].id != id {
      assert s.queue[i] in s.queue;
    }
    assert IdsOf(s'.queue) == IdsOf(s.queue) + {id};
  }

  lemma UpdateKeeps(s: State, id: Id, rec: Record, ttl: nat)
    requires Inv(s, ttl) && id in s.records && Sound(rec)
    ensures Inv(Update(s, id, rec), ttl)
  {
    hide Sound;
  }

  lemma DeliverInv(s: State, id: Id, from: PeerId, ttl: nat, now: int)
    requires Inv(s, ttl) && s.now <= now
    ensures Inv(Deliver(s, id, from, ttl, now).0, ttl)
  {
    hide Queued, Ordered;
    TouchKeeps(s, id, ttl, now);
    var s1 := Touch(s, id, ttl, now);
    var rec := s1.records[id];
    assert Sound(rec);
    if rec.status == Unknown {
      DeliveredSound(rec, from);
      hide Inv, Touch, Sound;
      UpdateKeeps(s1, id, rec.(status := Valid, credits := rec.credits + multiset(rec.peers.value - {from})), ttl);
    }
  }

  lemma DeliverFollows(s: State, id: Id, from: PeerId, ttl: nat, now: int, i: Id)
    requires AllSound(s)
    ensures var (s', marks) := Deliver(s, id, from, ttl, now); Follows(s, s', id, i, marks)
  {
  }

  lemma DeliverKeeps(s: State, id: Id, from: PeerId, ttl: nat, now: int)
    requires Inv(s, ttl) && s.now <= now
    ensures var (s', marks) := Deliver(s, id, from, ttl, now);
            Inv(s', ttl) && forall i :: Follows(s, s', id, i, marks)
  {
    hide Deliver, Queued, Ordered, AllSound, Follows;
    DeliverInv(s, id, from, ttl, now);
    forall i ensures Follows(s, Deliver(s, id, from, ttl, now).0, id, i, Deliver(s, id, from, ttl, now).1) {
      DeliverFollows(s, id, from, ttl, now, i);
    }
  }

  lemma DeliveredSound(rec: Record, from: PeerId)
    requires Sound(rec) && rec.status == Unknown
    ensures Sound(rec.(status := Valid, credits := rec.credits + multiset(rec.peers.value - {from})))
  {
  }

  lemma RejectInv(s: State, id: Id, from: PeerId, reason: Reason, ttl: nat, now: int)
    requires Inv(s, ttl) && s.now <= now
    ensures Inv(Reject(s, id, from, reason, ttl, now).0, ttl)
  {
    hide Queued, Ordered;
    if !reason.Faulty? && !reason.Unseen? {
      TouchKeeps(s, id, ttl, now);
      var s1 := Touch(s, id, ttl, now);
      var rec := s1.records[id];
      assert Sound(rec);
      if rec.status == Unknown {
        RejectedSound(rec);
        hide Inv, Touch, Sound;
        UpdateKeeps(s1, id, Reject(s, id, from, reason, ttl, now).0.records[id], ttl);
      }
    }
  }

  lemma RejectedSound(rec: Record)
    requires Sound(rec) && rec.status == Unknown
    ensures forall status :: status in {Invalid, Ignored, Throttled} ==> Sound(rec.(status := status, peers := None))
  {
  }

  lemma RejectFollows(s: State, id: Id, from: PeerId, reason: Reason, ttl: nat, now: int, i: Id)
    ensures var (s', marks) := Reject(s, id, from, reason, ttl, now); Follows(s, s', id, i, marks)
  {
  }

  lemma RejectKeeps(s: State, id: Id, from: PeerId, reason: Reason, ttl: nat, now: int)
    requires Inv(s, ttl) && s.now <= now
    ensures var (s', marks) := Reject(s, id, from, reason, ttl, now);
            Inv(s', ttl) && forall i :: Follows(s, s', id, i, marks)
  {
    hide Reject, Inv, Follows;
    RejectInv(s, id, from, reason, ttl, now);
    forall i ensures Follows(s, Reject(s, id, from, reason, ttl, now).0, id, i,
                             Reject(s, id, from, reason, ttl, now).1) {
      RejectFollows(s, id, from, reason, ttl, now, i);
    }
  }

  lemma SoundIsWritable(rec: Record)
    requires Sound(rec)
    ensures Writable(rec)
  {
  }

  lemma DuplicateInv(s: State, id: Id, from: PeerId, ttl: nat, now: int)
    requires Inv(s, ttl) && s.now <= now && (id in s.records ==> Writable(s.records[id]))
    ensures Inv(Duplicate(s, id, from, ttl, now).0, ttl)
  {
    hide Queued, Ordered;
    TouchKeeps(s, id, ttl, now);
    var s1 := Touch(s, id, ttl, now);
    var rec := s1.records[id];
    assert Sound(rec);
    if !(rec.peers.Some? && from in rec.peers.value) && (rec.status == Unknown || rec.status == Valid) {
      DuplicateSound(rec, from);
      hide Inv, Touch, Sound;
      UpdateKeeps(s1, id, Duplicate(s, id, from, ttl, now).0.records[id], ttl);
    }
  }

  lemma DuplicateSound(rec: Record, from: PeerId)
    requires Sound(rec) && rec.peers.Some? && from !in rec.peers.value
    ensures Sound(rec.(peers := Some(rec.peers.value + {from})))
    ensures rec.status == Valid ==>
              Sound(rec.(peers := Some(rec.peers.value + {from}), credits := rec.credits + multiset{from}))
  {
  }

  lemma DuplicateFollows(s: State, id: Id, from: PeerId, ttl: nat, now: int, i: Id)
    requires id in s.records ==> Writable(s.records[id])
    ensures var (s', marks) := Duplicate(s, id, from, ttl, now); Follows(s, s', id, i, marks)
  {
  }

  lemma DuplicateKeeps(s: State, id: Id, from: PeerId, ttl: nat, now: int)
    requires Inv(s, ttl) && s.now <= now
    ensures id in s.records ==> Writable(s.records[id])
    ensures var (s', marks) := Duplicate(s, id, from, ttl, now);
            Inv(s', ttl) && forall i :: Follows(s, s', id, i, marks)
  {
    hide Duplicate, Follows, Queued, Ordered;
    if id in s.records {
      SoundIsWritable(s.records[id]);
    }
    DuplicateInv(s, id, from, ttl, now);
    forall i ensures Follows(s, Duplicate(s, id, from, ttl, now).0, id, i, Duplicate(s, id, from, ttl, now).1) {
      DuplicateFollows(s, id, from, ttl, now, i);
    }
  }

  lemma ExpiredExact(s: State, ttl: nat, now: int, i: nat)
    requires Ordered(s, ttl) && i < |s.queue|
    ensures i < Expired(s.queue, now) <==> now > s.queue[i].expire
  {
  }

  lemma InFront(queue: seq<Pending>, n: nat, i: nat)
    requires n <= |queue| && i < |queue| && forall i, j :: 0 <= i < j < |queue| ==> queue[i].id != queue[j].id
    ensures queue[i].id in IdsOf(queue[..n]) <==> i < n
  {
    if i < n {
      assert queue[..n][i] in queue[..n];
    }
  }

  lemma CollectKeeps(s: State, ttl: nat, now: int)
    requires Inv(s, ttl) && s.now <= now
    ensures Inv(Collect(s, now), ttl)
    ensures forall about, i :: Follows(s, Collect(s, now), about, i, NoMarks)
  {
    hide IdsOf;
    QueueSplit(s.queue, Expired(s.queue, now));
  }

  /** Collecting leaves exactly the records that have not expired. */
  lemma CollectExact(s: State, ttl: nat, now: int, i: nat)
    requires Inv(s, ttl) && s.now <= now && i < |s.queue|
    ensures s.queue[i].id in s.records
    ensures s.queue[i].id in Collect(s, now).records <==> now <= s.queue[i].expire
  {
    hide AllSound, Expired;
    ExpiredExact(s, ttl, now, i);
    InFront(s.queue, Expired(s.queue, now), i);
    InFront(s.queue, |s.queue|, i);
    assert s.queue[..|s.queue|] == s.queue;
  }

  lemma QueueSplit(queue: seq<Pending>, n: nat)
    requires n <= |queue| && forall i, j :: 0 <= i < j < |queue| ==> queue[i].id != queue[j].id
    ensures IdsOf(queue[n..]) == IdsOf(queue) - IdsOf(queue[..n])
  {
    forall id | id in IdsOf(queue[n..]) ensures id !in IdsOf(queue[..n]) && id in IdsOf(queue) {
      var i :| 0 <= i < |queue[n..]| && queue[n..][i].id == id;
      assert queue[n + i] in queue;
    }
    forall id | id in IdsOf(queue) ensures id in IdsOf(queue[..n]) || id in IdsOf(queue[n..]) {
      var i :| 0 <= i < |queue| && queue[i].id == id;
      if i < n {
        assert queue[..n][i] in queue[..n];
      } else {
        assert queue[n..][i - n] in queue[n..];
      }
    }
  }

  // ------------------------------------------------------------- who is marked

  /** What is known of a message; one without a record has not been judged or forwarded. */
  function StatusOf(s: State, id: Id): Status {
    if id in s.records then s.records[id].status else Unknown
  }

  function PeersOf(s: State, id: Id): set<PeerId> {
    if id in s.records && s.records[id].peers.Some? then s.records[id].peers.value else {}
  }

  ghost predicate OthersSame(s: State, s': State, id: Id) {
    forall i :: i != id ==> (i in s'.records <==> i in s.records) && (i in s.records ==> s'.records[i] == s.records[i])
  }

  /** A delivery marks its sender as first; if the message was not judged before, it becomes valid and every
      other peer that forwarded it is credited. */
  lemma DeliverMarks(s: State, id: Id, from: PeerId, ttl: nat, now: int)
    ensures var (s', marks) := Deliver(s, id, from, ttl, now);
            var judged := StatusOf(s, id) != Unknown;
            && marks.first == multiset{from} && marks.invalid == multiset{}
            && marks.dup == (if judged then multiset{} else multiset(PeersOf(s, id) - {from}))
            && id in s'.records && StatusOf(s', id) == (if judged then StatusOf(s, id) else Valid)
            && PeersOf(s', id) == PeersOf(s, id) && OthersSame(s, s', id)
  {
  }

  /** A faulty message marks its sender only, and one that was not looked at marks nobody; neither leaves a
      trace. A failed validation marks its sender and everybody who forwarded the message, and only those. */
  lemma RejectMarks(s: State, id: Id, from: PeerId, reason: Reason, ttl: nat, now: int)
    ensures var (s', marks) := Reject(s, id, from, reason, ttl, now);
            var fails := StatusOf(s, id) == Unknown && reason == ValidationFailed;
            && marks.first == multiset{} && marks.dup == multiset{}
            && marks.invalid == (if reason == Faulty then multiset{from}
                                 else if fails then multiset{from} + multiset(PeersOf(s, id)) else multiset{})
            && (reason == Faulty || reason == Unseen ==> s' == s)
            && OthersSame(s, s', id)
  {
  }

  /** The first rejection decides the status and releases the peers. */
  lemma RejectDecides(s: State, id: Id, from: PeerId, reason: Reason, ttl: nat, now: int)
    requires reason != Faulty && reason != Unseen
    ensures var s' := Reject(s, id, from, reason, ttl, now).0;
            && id in s'.records
            && (StatusOf(s, id) != Unknown ==> s'.records[id] == s.records[id])
            && (StatusOf(s, id) == Unknown ==>
                  && PeersOf(s', id) == {}
                  && StatusOf(s', id) == (if reason == ValidationThrottled then Throttled
                                          else if reason == ValidationIgnored then Ignored else Invalid))
  {
  }

  /** A duplicate is noted while the message is not judged, credited once if it is valid, penalised if it is
      invalid, and ignored otherwise. */
  lemma DuplicateMarks(s: State, id: Id, from: PeerId, ttl: nat, now: int)
    requires id in s.records ==> Sound(s.records[id]) && Writable(s.records[id])
    ensures var (s', marks) := Duplicate(s, id, from, ttl, now);
            var status, again := StatusOf(s, id), from in PeersOf(s, id);
            && marks.first == multiset{}
            && marks.dup == (if status == Valid && !again then multiset{from} else multiset{})
            && marks.invalid == (if status == Invalid then multiset{from} else multiset{})
            && id in s'.records && StatusOf(s', id) == status && OthersSame(s, s', id)
            && PeersOf(s', id) == PeersOf(s, id) + (if status == Unknown || status == Valid then {from} else {})
  {
  }

  // ------------------------------------------------------------------- runs

  datatype Event =
    | Validating(vid: Id) | Delivering(did: Id, dfrom: PeerId) | Rejecting(rid: Id, rfrom: PeerId, reason: Reason)
    | Duplicating(uid: Id, ufrom: PeerId) | Collecting

  function About(ev: Event, other: Id): Id {
    match ev
    case Validating(id) => id
    case Delivering(id, _) => id
    case Rejecting(id, _, _) => id
    case Duplicating(id, _) => id
    case Collecting => other
  }

  ghost predicate Step(s: State, ev: Event, ttl: nat, now: int, s': State, marks: Marks) {
    && s.now <= now
    && match ev
       case Validating(id) => (s', marks) == (Touch(s, id, ttl, now), NoMarks)
       case Delivering(id, from) => (s', marks) == Deliver(s, id, from, ttl, now)
       case Rejecting(id, from, reason) => (s', marks) == Reject(s, id, from, reason, ttl, now)
       case Duplicating(id, from) =>
         && (id in s.records ==> Writable(s.records[id])) && (s', marks) == Duplicate(s, id, from, ttl, now)
       case Collecting => (s', marks) == (Collect(s, now), NoMarks)
  }

  lemma StepKeeps(s: State, ev: Event, ttl: nat, now: int, s': State, marks: Marks)
    requires Inv(s, ttl) && Step(s, ev, ttl, now, s', marks)
    ensures Inv(s', ttl) && forall i :: Follows(s, s', About(ev, i), i, marks)
  {
    hide Inv;
    match ev
    case Validating(id) => TouchKeeps(s, id, ttl, now);
    case Delivering(id, from) => DeliverKeeps(s, id, from, ttl, now);
    case Rejecting(id, from, reason) => RejectKeeps(s, id, from, reason, ttl, now);
    case Duplicating(id, from) => DuplicateKeeps(s, id, from, ttl, now);
    case Collecting => CollectKeeps(s, ttl, now);
  }

  ghost predicate IsRun(ttl: nat, run: seq<State>, events: seq<Event>, times: seq<int>, marks: seq<Marks>) {
    && |run| == |events| + 1 && |times| == |marks| == |events|
    && run[0].records == map[] && run[0].queue == []
    && forall i :: 0 <= i < |events| ==> Step(run[i], events[i], ttl, times[i], run[i + 1], marks[i])
  }

  lemma {:induction false} RunKeeps(ttl: nat, run: seq<State>, events: seq<Event>, times: seq<int>, marks: seq<Marks>,
                                    i: nat)
    requires IsRun(ttl, run, events, times, marks) && i < |run|
    ensures Inv(run[i], ttl)
  {
    hide Step;
    if i > 0 {
      RunKeeps(ttl, run, events, times, marks, i - 1);
      StepKeeps(run[i - 1], events[i - 1], ttl, times[i - 1], run[i], marks[i - 1]);
    }
  }

  /** The duplicate credits that the operations on an id give to a peer between two points of a run. */
  ghost function Credits(events: seq<Event>, marks: seq<Marks>, id: Id, p: PeerId): nat
    requires |marks| == |events|
  {
    if events == [] then 0
    else
      var k := |events| - 1;
      Credits(events[..k], marks[..k], id, p)
      + if !events[k].Collecting? && About(events[k], id) == id then marks[k].dup[p] else 0
  }

  /** The record is there from some point on, from the event that makes it or from before. */
  ghost predicate Stays(run: seq<State>, i: nat, j: nat, id: Id)
    requires i <= j < |run|
  {
    forall n :: i < n <= j ==> id in run[n].records
  }

  /** As long as a record is not collected, its status changes only once, from unknown, and the credits
      given for it add up to those it counts. */
  lemma {:induction false} RecordLife(ttl: nat, run: seq<State>, events: seq<Event>, times: seq<int>, marks: seq<Marks>,
                                      i: nat, j: nat, id: Id, p: PeerId)
    requires IsRun(ttl, run, events, times, marks) && i <= j < |run| && Stays(run, i, j, id)
    ensures id in run[i].records && run[i].records[id].status != Unknown ==>
            run[j].records[id].status == run[i].records[id].status
    ensures CreditsOf(run[j], id)[p] == CreditsOf(run[i], id)[p] + Credits(events[i..j], marks[i..j], id, p)
    decreases j
  {
    hide Step, Inv, Credits, CreditsOf;
    if i == j {
      NoCreditsYet(events, marks, i, id, p);
    } else {
      var k := j - 1;
      RecordLife(ttl, run, events, times, marks, i, k, id, p);
      RunKeeps(ttl, run, events, times, marks, k);
      LifeStep(run[k], events[k], ttl, times[k], run[j], marks[k], id, p);
      CreditsNext(events, marks, i, j, id, p);
    }
  }

  lemma NoCreditsYet(events: seq<Event>, marks: seq<Marks>, i: nat, id: Id, p: PeerId)
    requires i <= |events| == |marks|
    ensures Credits(events[i..i], marks[i..i], id, p) == 0
  {
  }

  lemma CreditsNext(events: seq<Event>, marks: seq<Marks>, i: nat, j: nat, id: Id, p: PeerId)
    requires i < j <= |events| == |marks|
    ensures Credits(events[i..j], marks[i..j], id, p) == Credits(events[i..j - 1], marks[i..j - 1], id, p)
              + if !events[j - 1].Collecting? && About(events[j - 1], id) == id then marks[j - 1].dup[p] else 0
  {
    assert events[i..j][..j - 1 - i] == events[i..j - 1] && marks[i..j][..j - 1 - i] == marks[i..j - 1];
  }

  lemma LifeStep(s: State, ev: Event, ttl: nat, now: int, s': State, marks: Marks, id: Id, p: PeerId)
    requires Inv(s, ttl) && Step(s, ev, ttl, now, s', marks) && id in s'.records
    ensures id in s.records && s.records[id].status != Unknown ==> s'.records[id].status == s.records[id].status
    ensures CreditsOf(s', id)[p] == CreditsOf(s, id)[p]
              + if !ev.Collecting? && About(ev, id) == id then marks.dup[p] else 0
  {
    NoCreditsInCollection(s, ev, ttl, now, s', marks);
    hide Step, Inv;
    StepKeeps(s, ev, ttl, now, s', marks);
    assert Follows(s, s', About(ev, id), id, marks);
  }

  lemma NoCreditsInCollection(s: State, ev: Event, ttl: nat, now: int, s': State, marks: Marks)
    requires Step(s, ev, ttl, now, s', marks)
    ensures ev.Collecting? ==> marks == NoMarks
  {
  }

  /** Each peer gets at most one duplicate credit per record. */
  lemma OneCreditPerRecord(ttl: nat, run: seq<State>, events: seq<Event>, times: seq<int>, marks: seq<Marks>,
                           i: nat, j: nat, id: Id, p: PeerId)
    requires IsRun(ttl, run, events, times, marks) && i <= j < |run| && Stays(run, i, j, id)
    ensures Credits(events[i..j], marks[i..j], id, p) <= 1
  {
    hide Step, Credits, Queued, Ordered;
    RecordLife(ttl, run, events, times, marks, i, j, id, p);
    RunKeeps(ttl, run, events, times, marks, j);
    if id in run[j].records {
      assert Sound(run[j].records[id]);
    }
  }

  // -------------------------------------------------------- life of a record

  ghost predicate SameShape(s: State, t: State) {
    s.queue == t.queue && s.records.Keys == t.records.Keys
  }

  lemma UpdateShape(s: State, id: Id, rec: Record)
    requires id in s.records
    ensures SameShape(Update(s, id, rec), s)
  {
    assert Update(s, id, rec).records.Keys == s.records.Keys + {id};
  }

  lemma DeliverShape(s: State, id: Id, from: PeerId, ttl: nat, now: int)
    ensures SameShape(Deliver(s, id, from, ttl, now).0, Touch(s, id, ttl, now))
  {
    hide Touch, Update, SameShape;
    var s1 := Touch(s, id, ttl, now);
    forall rec: Record ensures SameShape(Update(s1, id, rec), s1) {
      UpdateShape(s1, id, rec);
    }
    Shape(s1);
  }

  lemma Shape(s: State)
    ensures SameShape(s, s)
  {
  }

  lemma RejectShape(s: State, id: Id, from: PeerId, reason: Reason, ttl: nat, now: int)
    ensures var s' := Reject(s, id, from, reason, ttl, now).0;
            if reason == Faulty || reason == Unseen then s' == s else SameShape(s', Touch(s, id, ttl, now))
  {
    hide Touch, Update, SameShape;
    var s1 := Touch(s, id, ttl, now);
    forall rec: Record ensures SameShape(Update(s1, id, rec), s1) {
      UpdateShape(s1, id, rec);
    }
    Shape(s1);
  }

  lemma DuplicateShape(s: State, id: Id, from: PeerId, ttl: nat, now: int)
    requires id in s.records ==> Writable(s.records[id])
    ensures SameShape(Duplicate(s, id, from, ttl, now).0, Touch(s, id, ttl, now))
  {
    var s1 := Touch(s, id, ttl, now);
    assert id in s.records ==> s1.records[id] == s.records[id];
    assert Writable(s1.records[id]);
    hide Touch, Update, SameShape;
    forall rec: Record ensures SameShape(Update(s1, id, rec), s1) {
      UpdateShape(s1, id, rec);
    }
    Shape(s1);
  }

  /** Only a new record is queued, behind all others and with its whole time to live. */
  lemma QueueGrows(s: State, ev: Event, ttl: nat, now: int, s': State, marks: Marks, any: Id)
    requires Step(s, ev, ttl, now, s', marks) && !ev.Collecting?
    ensures var id := About(ev, any);
            if id in s.records || id !in s'.records then s'.queue == s.queue && s'.records.Keys == s.records.Keys
            else s'.queue == s.queue + [Pending(id, now + ttl)] && s'.records.Keys == s.records.Keys + {id}
  {
    hide Deliver, Reject, Duplicate;
    match ev
    case Validating(_) =>
    case Delivering(id, from) => DeliverShape(s, id, from, ttl, now);
    case Rejecting(id, from, reason) => RejectShape(s, id, from, reason, ttl, now);
    case Duplicating(id, from) => DuplicateShape(s, id, from, ttl, now);
  }

  lemma UncollectedStays(s: State, ttl: nat, now: int, e: Pending)
    requires Ordered(s, ttl) && e in s.queue && now <= e.expire
    ensures e in Collect(s, now).queue
  {
    hide IdsOf;
    var i :| 0 <= i < |s.queue| && s.queue[i] == e;
    var n := Expired(s.queue, now);
    ExpiredExact(s, ttl, now, i);
    assert s.queue[n..][i - n] == e;
  }

  lemma EntryStays(s: State, ev: Event, ttl: nat, now: int, s': State, marks: Marks, e: Pending)
    requires Inv(s, ttl) && Step(s, ev, ttl, now, s', marks) && e in s.queue
    requires ev.Collecting? ==> now <= e.expire
    ensures e in s'.queue
  {
    hide Queued, Ordered, AllSound, Collect, Touch, Deliver, Reject, Duplicate;
    if ev.Collecting? {
      UncollectedStays(s, ttl, now, e);
    } else {
      QueueGrows(s, ev, ttl, now, s', marks, e.id);
    }
  }

  lemma EntryHasRecord(s: State, ttl: nat, e: Pending)
    requires Inv(s, ttl) && e in s.queue
    ensures e.id in s.records
  {
    assert e.id in IdsOf(s.queue);
  }

  lemma NewEntry(s: State, ev: Event, ttl: nat, now: int, s': State, marks: Marks, id: Id)
    requires Step(s, ev, ttl, now, s', marks) && id !in s.records && id in s'.records
    ensures Pending(id, now + ttl) in s'.queue
  {
    hide Touch, Deliver, Reject, Duplicate, IdsOf, Expired;
    if !ev.Collecting? {
      QueueGrows(s, ev, ttl, now, s', marks, id);
    }
  }

  lemma {:induction false} EntryAlongRun(ttl: nat, run: seq<State>, events: seq<Event>, times: seq<int>,
                                         marks: seq<Marks>, i: nat, j: nat, id: Id)
    requires IsRun(ttl, run, events, times, marks) && i < j < |run|
    requires id !in run[i].records && id in run[i + 1].records
    requires forall n :: i < n < j && events[n].Collecting? ==> times[n] <= times[i] + ttl
    ensures Pending(id, times[i] + ttl) in run[j].queue
  {
    hide Inv;
    var m := j - 1;
    assert Step(run[m], events[m], ttl, times[m], run[m + 1], marks[m]);
    hide Step;
    if m == i {
      NewEntry(run[i], events[i], ttl, times[i], run[j], marks[i], id);
    } else {
      EntryAlongRun(ttl, run, events, times, marks, i, m, id);
      RunKeeps(ttl, run, events, times, marks, m);
      EntryStays(run[m], events[m], ttl, times[m], run[j], marks[m], Pending(id, times[i] + ttl));
    }
  }

  /** A record is there for its time to live after it was made, whatever happens. */
  lemma RecordSurvives(ttl: nat, run: seq<State>, events: seq<Event>, times: seq<int>, marks: seq<Marks>,
                       i: nat, j: nat, id: Id)
    requires IsRun(ttl, run, events, times, marks) && i < j < |run|
    requires id !in run[i].records && id in run[i + 1].records
    requires forall n :: i < n < j && events[n].Collecting? ==> times[n] <= times[i] + ttl
    ensures id in run[j].records
  {
    hide Step, Inv;
    EntryAlongRun(ttl, run, events, times, marks, i, j, id);
    RunKeeps(ttl, run, events, times, marks, j);
    EntryHasRecord(run[j], ttl, Pending(id, times[i] + ttl));
  }

  // ------------------------------------------------------- justice over runs

  /** An event about another message leaves a record alone that it does not collect. */
  lemma OtherEvent(s: State, ev: Event, ttl: nat, now: int, s': State, marks: Marks, id: Id)
    requires Inv(s, ttl) && Step(s, ev, ttl, now, s', marks) && id in s.records && id in s'.records
    requires ev.Collecting? || ev.Validating? || About(ev, id) != id
    ensures s'.records[id] == s.records[id]
  {
    hide Inv, IdsOf, Expired;
    match ev
    case Rejecting(i, from, reason) => RejectMarks(s, i, from, reason, ttl, now);
    case _ =>
  }

  /** What one event does to the standing of a peer that has forwarded a message: as long as the message is
      unknown or valid the peer is remembered, and when the message is found invalid the peer is marked. */
  lemma ForwarderStep(s: State, ev: Event, ttl: nat, now: int, s': State, marks: Marks, id: Id, p: PeerId)
    requires Inv(s, ttl) && Step(s, ev, ttl, now, s', marks) && id in s.records && id in s'.records
    requires p in PeersOf(s, id)
    ensures StatusOf(s', id) in {Unknown, Valid} ==> p in PeersOf(s', id)
    ensures StatusOf(s, id) == Unknown && StatusOf(s', id) == Invalid ==> p in marks.invalid
  {
    hide Queued, Ordered, Deliver, Reject, Duplicate, Touch, Collect, Sound, OthersSame;
    if ev.Collecting? || ev.Validating? || About(ev, id) != id {
      OtherEvent(s, ev, ttl, now, s', marks, id);
    } else {
      match ev
      case Delivering(_, from) => DeliverMarks(s, id, from, ttl, now);
      case Rejecting(_, from, reason) =>
        RejectMarks(s, id, from, reason, ttl, now);
        if reason != Faulty && reason != Unseen {
          RejectDecides(s, id, from, reason, ttl, now);
        }
      case Duplicating(_, from) => DuplicateMarks(s, id, from, ttl, now);
    }
  }

  ghost predicate MarkedInvalid(marks: seq<Marks>, i: nat, j: nat, p: PeerId)
    requires i <= j <= |marks|
  {
    exists n :: i <= n < j && p in marks[n].invalid
  }

  lemma {:induction false} Remembered(ttl: nat, run: seq<State>, events: seq<Event>, times: seq<int>, marks: seq<Marks>,
                                      k: nat, n: nat, id: Id, p: PeerId)
    requires IsRun(ttl, run, events, times, marks) && k < n < |run| && Stays(run, k, n, id)
    requires events[k] == Duplicating(id, p)
    ensures StatusOf(run[n], id) in {Unknown, Valid} ==> p in PeersOf(run[n], id)
    ensures StatusOf(run[n], id) == Invalid ==> MarkedInvalid(marks, k, n, p)
  {
    hide Inv, Follows, PeersOf;
    var m := n - 1;
    RunKeeps(ttl, run, events, times, marks, m);
    assert Step(run[m], events[m], ttl, times[m], run[m + 1], marks[m]);
    if m == k {
      ForwarderNoted(run[m], id, p, ttl, times[m], run[n], marks[m]);
    } else {
      hide Step;
      Remembered(ttl, run, events, times, marks, k, m, id, p);
      StatusIsFinal(run[m], events[m], ttl, times[m], run[n], marks[m], id);
      if StatusOf(run[m], id) in {Unknown, Valid} {
        ForwarderStep(run[m], events[m], ttl, times[m], run[n], marks[m], id, p);
      }
    }
  }

  lemma ForwarderNoted(s: State, id: Id, p: PeerId, ttl: nat, now: int, s': State, marks: Marks)
    requires Inv(s, ttl) && Step(s, Duplicating(id, p), ttl, now, s', marks)
    ensures StatusOf(s', id) in {Unknown, Valid} ==> p in PeersOf(s', id)
    ensures StatusOf(s', id) == Invalid ==> p in marks.invalid
  {
    hide Queued, Ordered, Duplicate, OthersSame;
    DuplicateMarks(s, id, p, ttl, now);
  }

  lemma StatusIsFinal(s: State, ev: Event, ttl: nat, now: int, s': State, marks: Marks, id: Id)
    requires Inv(s, ttl) && Step(s, ev, ttl, now, s', marks) && id in s.records && id in s'.records
    ensures StatusOf(s, id) != Unknown ==> StatusOf(s', id) == StatusOf(s, id)
  {
    hide Inv, Step;
    StepKeeps(s, ev, ttl, now, s', marks);
    assert Follows(s, s', About(ev, id), id, marks);
  }

  /** Everybody who forwards a message that is found invalid, before or after, is marked for it. */
  lemma ForwardersOfInvalid(ttl: nat, run: seq<State>, events: seq<Event>, times: seq<int>, marks: seq<Marks>,
                            k: nat, j: nat, id: Id, p: PeerId)
    requires IsRun(ttl, run, events, times, marks) && k < j < |run| && Stays(run, k, j, id)
    requires events[k] == Duplicating(id, p) && StatusOf(run[j], id) == Invalid
    ensures MarkedInvalid(marks, k, j, p)
  {
    hide IsRun, Stays;
    Remembered(ttl, run, events, times, marks, k, j, id, p);
  }

  /** An event that finds a message invalid or deals with an invalid one marks its sender; nothing else does,
      but an obvious fault. */
  lemma InvalidMarksAreDue(s: State, ev: Event, ttl: nat, now: int, s': State, marks: Marks, p: PeerId)
    requires Inv(s, ttl) && Step(s, ev, ttl, now, s', marks) && p in marks.invalid
    ensures || (ev.Rejecting? && ev.reason == Faulty && ev.rfrom == p)
            || (ev.Rejecting? && StatusOf(s', ev.rid) == Invalid && (ev.rfrom == p || p in PeersOf(s, ev.rid)))
            || (ev.Duplicating? && StatusOf(s, ev.uid) == Invalid && ev.ufrom == p)
  {
    hide Queued, Ordered, Deliver, Reject, Duplicate, OthersSame;
    match ev
    case Delivering(id, from) => DeliverMarks(s, id, from, ttl, now);
    case Rejecting(id, from, reason) =>
      RejectMarks(s, id, from, reason, ttl, now);
      if reason != Faulty && reason != Unseen {
        RejectDecides(s, id, from, reason, ttl, now);
      }
    case Duplicating(id, from) => DuplicateMarks(s, id, from, ttl, now);
    case _ =>
  }

  /** Who has been credited for a valid message that `first` delivered when `early` had forwarded it: everybody
      who forwarded it, but not the deliverer if it was among the early ones. */
  ghost predicate Rewarded(s: State, id: Id, first: PeerId, early: set<PeerId>) {
    && StatusOf(s, id) == Valid && early <= PeersOf(s, id)
    && forall p :: CreditsOf(s, id)[p] == if p in PeersOf(s, id) && (p == first ==> first !in early) then 1 else 0
  }

  lemma RewardedFirst(s: State, id: Id, first: PeerId, ttl: nat, now: int)
    requires Inv(s, ttl) && s.now <= now && StatusOf(s, id) == Unknown
    ensures Rewarded(Deliver(s, id, first, ttl, now).0, id, first, PeersOf(s, id))
  {
    hide Queued, Ordered, Deliver, OthersSame;
    DeliverMarks(s, id, first, ttl, now);
    DeliverFollows(s, id, first, ttl, now, id);
    if id in s.records {
      assert Sound(s.records[id]);
    }
  }

  lemma RewardedStep(s: State, ev: Event, ttl: nat, now: int, s': State, marks: Marks, id: Id, first: PeerId,
                     early: set<PeerId>)
    requires Inv(s, ttl) && Step(s, ev, ttl, now, s', marks) && id in s.records && id in s'.records
    requires Rewarded(s, id, first, early)
    ensures Rewarded(s', id, first, early)
  {
    hide Queued, Ordered, Deliver, Reject, Duplicate, Touch, Collect, OthersSame, Sound;
    if ev.Collecting? || ev.Validating? || About(ev, id) != id {
      OtherEvent(s, ev, ttl, now, s', marks, id);
    } else {
      match ev
      case Delivering(_, from) =>
        DeliverMarks(s, id, from, ttl, now);
        DeliverFollows(s, id, from, ttl, now, id);
      case Rejecting(_, from, reason) =>
        RejectMarks(s, id, from, reason, ttl, now);
        if reason != Faulty && reason != Unseen {
          RejectDecides(s, id, from, reason, ttl, now);
        }
      case Duplicating(_, from) =>
        DuplicateMarks(s, id, from, ttl, now);
        DuplicateFollows(s, id, from, ttl, now, id);
    }
  }

  /** From the delivery that makes a message valid on, as long as its record is there: everybody who has
      forwarded it has exactly one credit, except a deliverer that had also forwarded it before. */
  lemma {:induction false} ForwardersOfValid(ttl: nat, run: seq<State>, events: seq<Event>, times: seq<int>,
                                             marks: seq<Marks>, k: nat, j: nat, id: Id, first: PeerId)
    requires IsRun(ttl, run, events, times, marks) && k < j < |run| && Stays(run, k, j, id)
    requires events[k] == Delivering(id, first) && StatusOf(run[k], id) == Unknown
    ensures Rewarded(run[j], id, first, PeersOf(run[k], id))
  {
    hide Inv, Rewarded, PeersOf, Deliver;
    var m := j - 1;
    RunKeeps(ttl, run, events, times, marks, m);
    assert Step(run[m], events[m], ttl, times[m], run[m + 1], marks[m]);
    if m == k {
      RewardedFirst(run[k], id, first, ttl, times[k]);
    } else {
      hide Step;
      ForwardersOfValid(ttl, run, events, times, marks, k, m, id, first);
      RewardedStep(run[m], events[m], ttl, times[m], run[j], marks[m], id, first, PeersOf(run[k], id));
    }
  }

  /** So a peer can get both the mark of the first delivery and a duplicate credit, by sending the message
      again after it was found valid. */
  lemma DelivererIsCreditedToo(id: Id, p: PeerId, ttl: nat, now: int)
    ensures var (s1, first) := Deliver(State(map[], [], now), id, p, ttl, now);
            && first.first == multiset{p} && id in s1.records && Writable(s1.records[id])
            && Duplicate(s1, id, p, ttl, now).1.dup == multiset{p}
  {
  }
}

/** Promised messages, indexed by message and by peer (go-libp2p-blossomsub/gossip_tracer.go). */
module Promises {
  import opened Identifiers
  import opened PairIndex

  type Id(==, !new)

  /** The open promises: which peer promised which message, and until when. */
  type Open = map<(Id, PeerId), int>

  /** The index by message holds exactly the open promises with their expiries, and no empty map. */
  ghost predicate ByMessage(m: map<Id, map<PeerId, int>>, open: Open) {
    && (forall id, p :: (id, p) in open <==> id in m && p in m[id])
    && (forall id, p :: (id, p) in open ==> m[id][p] == open[(id, p)])
    && (forall id :: id in m ==> m[id] != map[])
  }

  ghost function Pairs(open: Open): set<(PeerId, Id)> {
    set x | x in open :: (x.1, x.0)
  }

  // ------------------------------------------------------------ what happens

  function Add(open: Open, id: Id, p: PeerId, expire: int): Open {
    if (id, p) in open then open else open[(id, p) := expire]
  }

  function Kept(open: Open, now: int): Open {
    map x | x in open && open[x] >= now :: open[x]
  }

  function BrokenBy(open: Open, now: int, p: PeerId): set<(Id, PeerId)> {
    set x | x in open && x.1 == p && open[x] < now
  }

  function WithoutId(open: Open, id: Id): Open {
    map x | x in open && x.0 != id :: open[x]
  }

  function WithoutPeer(open: Open, p: PeerId): Open {
    map x | x in open && x.1 != p :: open[x]
  }

  // -------------------------------------------------------------- one promise

  lemma PairsOf(open: Open, id: Id, p: PeerId)
    ensures (p, id) in Pairs(open) <==> (id, p) in open
  {
  }

  lemma AddPair(open: Open, id: Id, p: PeerId, e: int)
    ensures Pairs(open[(id, p) := e]) == Pairs(open) + {(p, id)}
  {
    forall q, i ensures (q, i) in Pairs(open[(id, p) := e]) <==> (q, i) in Pairs(open) + {(p, id)} {
      PairsOf(open[(id, p) := e], i, q);
      PairsOf(open, i, q);
    }
  }

  lemma RemovePair(open: Open, id: Id, p: PeerId)
    ensures Pairs(open - {(id, p)}) == Pairs(open) - {(p, id)}
  {
    forall q, i ensures (q, i) in Pairs(open - {(id, p)}) <==> (q, i) in Pairs(open) - {(p, id)} {
      PairsOf(open - {(id, p)}, i, q);
      PairsOf(open, i, q);
    }
  }

  lemma AddByMessage(m: map<Id, map<PeerId, int>>, open: Open, id: Id, p: PeerId, e: int)
    requires ByMessage(m, open)
    ensures ByMessage(m[id := (if id in m then m[id] else map[])[p := e]], open[(id, p) := e])
  {
    var inner := (if id in m then m[id] else map[])[p := e];
    assert p in inner;
  }

  function DropFrom(m: map<Id, map<PeerId, int>>, id: Id, p: PeerId): map<Id, map<PeerId, int>> {
    if id !in m then m else if m[id] - {p} == map[] then m - {id} else m[id := m[id] - {p}]
  }

  lemma DropByMessage(m: map<Id, map<PeerId, int>>, open: Open, id: Id, p: PeerId)
    requires ByMessage(m, open)
    ensures ByMessage(DropFrom(m, id, p), open - {(id, p)})
  {
    var m', open' := DropFrom(m, id, p), open - {(id, p)};
    forall i, q ensures (i, q) in open' <==> i in m' && q in m'[i] {
      assert (i, q) in open <==> i in m && q in m[i];
      if i == id && id in m {
        assert q in m[id] - {p} <==> q in m[id] && q != p;
      }
    }
  }

  class GossipTracer {
    const followUpTime: int
    var promises: map<Id, map<PeerId, int>>
    var peerPromises: map<PeerId, set<Id>>
    ghost var open: Open

    /** The two indices are exact inverses: both hold the open promises and nothing else. */
    ghost predicate Valid()
      reads this
    {
      ByMessage(promises, open) && Indexes(peerPromises, Pairs(open))
    }

    constructor (followUpTime: int)
      ensures Valid() && open == map[] && this.followUpTime == followUpTime
    {
      this.followUpTime := followUpTime;
      promises, peerPromises, open := map[], map[], map[];
    }

    /** A promise is tracked for one of the requested messages, whichever the random choice names. */
    method AddPromise(p: PeerId, ids: seq<Id>, choice: nat, now: int)
      requires Valid() && choice < |ids|
      modifies this
      ensures Valid() && open == Add(old(open), ids[choice], p, now + followUpTime)
    {
      hide Pairs, ByMessage, Indexes;
      var id := ids[choice];
      Membership(promises, open, id, p);
      if id in promises && p in promises[id] {
        return;
      }
      AddByMessage(promises, open, id, p, now + followUpTime);
      AddPair(open, id, p, now + followUpTime);
      InsertIndexes(peerPromises, Pairs(open), p, id);
      promises := promises[id := (if id in promises then promises[id] else map[])[p := now + followUpTime]];
      peerPromises := Insert(peerPromises, p, id);
      open := open[(id, p) := now + followUpTime];
    }

    /** One promise is taken out of both indices. */
    method Forget(id: Id, p: PeerId)
      requires Valid()
      modifies this
      ensures Valid() && open == old(open) - {(id, p)}
    {
      hide Pairs, ByMessage, Indexes;
      DropByMessage(promises, open, id, p);
      RemovePair(open, id, p);
      DeleteIndexes(peerPromises, Pairs(open), p, id);
      promises := DropFrom(promises, id, p);
      peerPromises := Delete(peerPromises, p, id);
      open := open - {(id, p)};
    }

    /** Expired promises are removed from both indices and counted for each peer. */
    method GetBrokenPromises(now: int) returns (res: map<PeerId, nat>)
      requires Valid()
      modifies this
      ensures Valid() && open == Kept(old(open), now)
      ensures forall p :: p in res <==> BrokenBy(old(open), now, p) != {}
      ensures forall p :: p in res ==> res[p] == |BrokenBy(old(open), now, p)|
    {
      hide ByMessage, Indexes, Pairs;
      res := map[];
      ghost var all, broken := open, {};
      TallyNone(res);
      var ids := promises.Keys;
      KeysOfAll(promises, open);
      while ids != {}
        invariant Valid() && broken <= BrokenAll(all, now) && open == all - broken && Tally(res, broken)
        invariant forall x :: x in BrokenAll(all, now) && x !in broken ==> x.0 in ids
        decreases |ids|
      {
        var id :| id in ids;
        var peers := if id in promises then promises[id].Keys else {};
        KeysOf(promises, open, id);
        while peers != {}
          invariant Valid() && broken <= BrokenAll(all, now) && open == all - broken && Tally(res, broken)
          invariant forall x :: x in BrokenAll(all, now) && x !in broken ==> x.0 in ids && (x.0 == id ==> x.1 in peers)
          decreases |peers|
        {
          var p :| p in peers;
          Membership(promises, open, id, p);
          if id in promises && p in promises[id] && promises[id][p] < now {
            Expiry(promises, open, id, p);
            TallyOneMore(res, broken, id, p);
            res := res[p := (if p in res then res[p] else 0) + 1];
            Forget(id, p);
            broken := broken + {(id, p)};
          } else {
            NotBroken(promises, open, all, broken, now, id, p);
          }
          peers := peers - {p};
        }
        ids := ids - {id};
      }
      assert broken == BrokenAll(all, now);
      TallyDone(res, all, now);
    }

    method FulfillPromise(id: Id)
      requires Valid()
      modifies this
      ensures Valid() && open == WithoutId(old(open), id)
    {
      hide Pairs, Indexes;
      var rest := if id in promises then promises[id].Keys else {};
      while rest != {}
        invariant Valid() && (forall x :: x in open ==> x in old(open) && open[x] == old(open)[x])
        invariant forall x :: x in old(open) && x.0 != id ==> x in open
        invariant forall p :: (id, p) in open ==> p in rest
        decreases |rest|
      {
        var p :| p in rest;
        Forget(id, p);
        rest := rest - {p};
      }
    }

    method ThrottlePeer(p: PeerId)
      requires Valid()
      modifies this
      ensures Valid() && open == WithoutPeer(old(open), p)
    {
      hide ByMessage;
      ghost var before := open;
      var rest := if p in peerPromises then peerPromises[p] else {};
      forall id | (id, p) in open ensures id in rest {
        assert (p, id) in Pairs(open);
      }
      hide Pairs, Indexes;
      while rest != {}
        invariant Valid() && (forall x :: x in open ==> x in old(open) && open[x] == old(open)[x])
        invariant forall x :: x in old(open) && x.1 != p ==> x in open
        invariant forall id :: (id, p) in open ==> id in rest
        decreases |rest|
      {
        var id :| id in rest;
        Forget(id, p);
        rest := rest - {id};
      }
    }
  }

  lemma Membership(m: map<Id, map<PeerId, int>>, open: Open, id: Id, p: PeerId)
    requires ByMessage(m, open)
    ensures (id, p) in open <==> id in m && p in m[id]
  {
  }

  /** A peer is listed under a message exactly if the message is listed under the peer. */
  lemma ExactInverses(promises: map<Id, map<PeerId, int>>, peerPromises: map<PeerId, set<Id>>, open: Open, id: Id,
                      p: PeerId)
    requires ByMessage(promises, open) && Indexes(peerPromises, Pairs(open))
    ensures id in promises && p in promises[id] <==> p in peerPromises && id in peerPromises[p]
  {
    PairsOf(open, id, p);
  }

  function BrokenAll(open: Open, now: int): set<(Id, PeerId)> {
    set x | x in open && open[x] < now
  }

  function Of(broken: set<(Id, PeerId)>, p: PeerId): set<(Id, PeerId)> {
    set x | x in broken && x.1 == p
  }

  ghost predicate Tally(res: map<PeerId, nat>, broken: set<(Id, PeerId)>) {
    forall p :: if p in res then res[p] == |Of(broken, p)| && Of(broken, p) != {} else Of(broken, p) == {}
  }

  lemma TallyNone(res: map<PeerId, nat>)
    requires res == map[]
    ensures Tally(res, {})
  {
  }

  lemma TallyOneMore(res: map<PeerId, nat>, broken: set<(Id, PeerId)>, id: Id, p: PeerId)
    requires Tally(res, broken) && (id, p) !in broken
    ensures Tally(res[p := (if p in res then res[p] else 0) + 1], broken + {(id, p)})
  {
    hide Of;
    var res' := res[p := (if p in res then res[p] else 0) + 1];
    forall q
      ensures if q in res' then res'[q] == |Of(broken + {(id, p)}, q)| && Of(broken + {(id, p)}, q) != {}
              else Of(broken + {(id, p)}, q) == {}
    {
      OfMore(broken, id, p, q);
    }
  }

  lemma OfMore(broken: set<(Id, PeerId)>, id: Id, p: PeerId, q: PeerId)
    requires (id, p) !in broken
    ensures Of(broken + {(id, p)}, q) == if q == p then Of(broken, q) + {(id, p)} else Of(broken, q)
    ensures (id, p) !in Of(broken, q)
  {
  }

  lemma TallyDone(res: map<PeerId, nat>, open: Open, now: int)
    requires Tally(res, BrokenAll(open, now))
    ensures forall p :: p in res <==> BrokenBy(open, now, p) != {}
    ensures forall p :: p in res ==> res[p] == |BrokenBy(open, now, p)|
    ensures open - BrokenAll(open, now) == Kept(open, now)
  {
    forall p ensures Of(BrokenAll(open, now), p) == BrokenBy(open, now, p) {
    }
  }

  lemma KeysOfAll(m: map<Id, map<PeerId, int>>, open: Open)
    requires ByMessage(m, open)
    ensures forall x :: x in open ==> x.0 in m
  {
    forall x | x in open ensures x.0 in m {
      assert (x.0, x.1) in open;
    }
  }

  lemma KeysOf(m: map<Id, map<PeerId, int>>, open: Open, id: Id)
    requires ByMessage(m, open)
    ensures forall p :: (id, p) in open ==> id in m && p in m[id]
  {
  }

  lemma Expiry(m: map<Id, map<PeerId, int>>, open: Open, id: Id, p: PeerId)
    requires ByMessage(m, open) && id in m && p in m[id]
    ensures (id, p) in open && open[(id, p)] == m[id][p]
  {
  }

  lemma NotBroken(m: map<Id, map<PeerId, int>>, open: Open, all: Open, broken: set<(Id, PeerId)>, now: int, id: Id,
                  p: PeerId)
    requires ByMessage(m, open) && open == all - broken
    requires !(id in m && p in m[id] && m[id][p] < now)
    ensures (id, p) in BrokenAll(all, now) ==> (id, p) in broken
  {
    if (id, p) in open {
      Expiry(m, open, id, p);
    }
  }

  // ------------------------------------------------------------- whole runs

  datatype Event =
    | Promised(id: Id, peer: PeerId, at: int) | Fulfilled(fid: Id) | Throttled(tpeer: PeerId) | Checked(now: int)

  function Next(open: Open, ev: Event, followUp: int): Open {
    match ev
    case Promised(id, p, at) => Add(open, id, p, at + followUp)
    case Fulfilled(id) => WithoutId(open, id)
    case Throttled(p) => WithoutPeer(open, p)
    case Checked(now) => Kept(open, now)
  }

  ghost predicate IsRun(run: seq<Open>, events: seq<Event>, followUp: int) {
    && |run| == |events| + 1 && run[0] == map[]
    && forall i :: 0 <= i < |events| ==> run[i + 1] == Next(run[i], events[i], followUp)
  }

  /** The check at event i counts this promise as broken. */
  ghost predicate Blamed(run: seq<Open>, events: seq<Event>, i: nat, x: (Id, PeerId))
    requires i < |events| < |run|
  {
    events[i].Checked? && x in BrokenBy(run[i], events[i].now, x.1)
  }

  /** The event lets this promise go without blame. */
  ghost predicate Excuses(ev: Event, x: (Id, PeerId)) {
    ev == Fulfilled(x.0) || ev == Throttled(x.1)
  }

  /** What one event does to one promise: it is made if there is none, and then it stays with its time until it
      is excused or found to be over, and only then is it gone. */
  lemma PromiseStep(open: Open, ev: Event, followUp: int, x: (Id, PeerId))
    ensures var open' := Next(open, ev, followUp);
            if x in open then
              if Excuses(ev, x) || (ev.Checked? && ev.now > open[x]) then x !in open'
              else x in open' && open'[x] == open[x]
            else
              && (x in open' <==> ev.Promised? && ev.id == x.0 && ev.peer == x.1)
              && (x in open' ==> open'[x] == ev.at + followUp)
    ensures ev.Checked? ==> (x in BrokenBy(open, ev.now, x.1) <==> x in open && ev.now > open[x])
  {
    match ev
    case Promised(id, p, at) => assert x == (x.0, x.1);
    case _ =>
  }

  /** The promise that is open at state j was made at event i, and nothing has touched it since. */
  ghost predicate MadeAt(run: seq<Open>, events: seq<Event>, followUp: int, i: nat, j: nat, x: (Id, PeerId))
    requires i < j <= |events| < |run|
  {
    && events[i].Promised? && events[i].id == x.0 && events[i].peer == x.1
    && x in run[j] && run[j][x] == events[i].at + followUp
    && forall n :: i < n < j ==> !Excuses(events[n], x) && !Blamed(run, events, n, x)
  }

  lemma {:induction false} OpenWasMade(run: seq<Open>, events: seq<Event>, followUp: int, j: nat, x: (Id, PeerId))
      returns (i: nat)
    requires IsRun(run, events, followUp) && j < |run| && x in run[j]
    ensures i < j && MadeAt(run, events, followUp, i, j, x)
  {
    hide Next, BrokenBy;
    var m := j - 1;
    assert run[m + 1] == Next(run[m], events[m], followUp);
    PromiseStep(run[m], events[m], followUp, x);
    if x in run[m] {
      i := OpenWasMade(run, events, followUp, m, x);
    } else {
      i := m;
    }
  }

  /** Nobody is blamed without reason: a promise found to be broken was made at least the follow-up time before,
      and was not fulfilled, throttled or blamed in between. */
  lemma NoFalseBlame(run: seq<Open>, events: seq<Event>, followUp: int, j: nat, x: (Id, PeerId)) returns (i: nat)
    requires IsRun(run, events, followUp) && j < |events| && Blamed(run, events, j, x)
    ensures i < j && events[i].Promised? && events[i].id == x.0 && events[i].peer == x.1
    ensures events[j].now > events[i].at + followUp
    ensures forall n :: i < n < j ==> !Excuses(events[n], x) && !Blamed(run, events, n, x)
  {
    PromiseStep(run[j], events[j], followUp, x);
    hide IsRun, BrokenBy;
    i := OpenWasMade(run, events, followUp, j, x);
  }

  lemma {:induction false} StaysOpen(run: seq<Open>, events: seq<Event>, followUp: int, i: nat, j: nat, x: (Id, PeerId))
    requires IsRun(run, events, followUp) && i < j < |run| && x !in run[i]
    requires events[i].Promised? && events[i].id == x.0 && events[i].peer == x.1
    requires forall n :: i < n < j ==> !Excuses(events[n], x) && !Blamed(run, events, n, x)
    ensures x in run[j] && run[j][x] == events[i].at + followUp
  {
    hide Next, BrokenBy;
    var m := j - 1;
    assert run[m + 1] == Next(run[m], events[m], followUp);
    PromiseStep(run[m], events[m], followUp, x);
    if m > i {
      StaysOpen(run, events, followUp, i, m, x);
    }
  }

  /** Every broken promise is blamed: one that is neither fulfilled nor throttled is blamed by the first check
      after its time, or was blamed before. */
  lemma BrokenIsBlamed(run: seq<Open>, events: seq<Event>, followUp: int, i: nat, j: nat, x: (Id, PeerId))
    requires IsRun(run, events, followUp) && i < j < |events| && x !in run[i]
    requires events[i].Promised? && events[i].id == x.0 && events[i].peer == x.1
    requires forall n :: i < n < j ==> !Excuses(events[n], x)
    requires events[j].Checked? && events[j].now > events[i].at + followUp
    ensures exists n :: i < n <= j && Blamed(run, events, n, x)
  {
    hide BrokenBy, Next;
    if forall n :: i < n < j ==> !Blamed(run, events, n, x) {
      StaysOpen(run, events, followUp, i, j, x);
      PromiseStep(run[j], events[j], followUp, x);
      assert Blamed(run, events, j, x);
    }
  }
}

/** Peer join and leave events: a log of pending events, a signal channel of capacity one, and consumers
    that sleep on it (go-libp2p-blossomsub/bitmask.go and the membership updates in pubsub.go). */
module PeerEvents {
  import opened Identifiers
  import opened Options

  datatype Kind = Join | Leave

  datatype PeerEvent = PeerEvent(kind: Kind, peer: PeerId)

  /** One handler. `members` are the peers subscribed to the bitmask; the process loop updates them first
      and then notifies the handler, `inflight` being the event in between. Of the consumers inside
      NextPeerEvent some are about to look at the log and some sleep. `delivered` is the history. */
  datatype State = State(
    members: set<PeerId>, inflight: Option<PeerEvent>, log: map<PeerId, Kind>, signal: bool,
    polling: nat, sleeping: nat, delivered: seq<PeerEvent>)

  /** A new handler begins with a pending join for every current member, and without a signal. */
  function Init(members: set<PeerId>): State {
    State(members, None, map p | p in members :: Join, false, 0, 0, [])
  }

  /** `addToEventLog`: the opposite of a pending event cancels it. */
  function AddToLog(log: map<PeerId, Kind>, signal: bool, evt: PeerEvent): (map<PeerId, Kind>, bool) {
    if evt.peer !in log then (log[evt.peer := evt.kind], true)
    else if log[evt.peer] != evt.kind then (log - {evt.peer}, signal)
    else (log, signal)
  }

  datatype Event =
    | Subscribes(sp: PeerId) | Unsubscribes(up: PeerId) | Notifies
    | Calls | Pulls(pp: PeerId) | FindsNothing | Wakes | GivesUp

  predicate Enabled(s: State, ev: Event) {
    match ev
    case Subscribes(p) => s.inflight.None? && p !in s.members
    case Unsubscribes(p) => s.inflight.None? && p in s.members
    case Notifies => s.inflight.Some?
    case Calls => true
    case Pulls(p) => s.polling > 0 && p in s.log
    case FindsNothing => s.polling > 0 && s.log == map[]
    case Wakes => s.sleeping > 0 && s.signal
    case GivesUp => s.sleeping > 0
  }

  function Next(s: State, ev: Event): State
    requires Enabled(s, ev)
  {
    match ev
    case Subscribes(p) => s.(members := s.members + {p}, inflight := Some(PeerEvent(Join, p)))
    case Unsubscribes(p) => s.(members := s.members - {p}, inflight := Some(PeerEvent(Leave, p)))
    case Notifies =>
      var (log, signal) := AddToLog(s.log, s.signal, s.inflight.value);
      s.(inflight := None, log := log, signal := signal)
    case Calls => s.(polling := s.polling + 1)
    case Pulls(p) =>
      s.(log := s.log - {p}, delivered := s.delivered + [PeerEvent(s.log[p], p)], polling := s.polling - 1,
         signal := s.signal || s.log - {p} != map[])
    case FindsNothing => s.(polling := s.polling - 1, sleeping := s.sleeping + 1)
    case Wakes => s.(signal := false, sleeping := s.sleeping - 1, polling := s.polling + 1)
    case GivesUp => s.(sleeping := s.sleeping - 1)
  }

  // -------------------------------------------------------------- invariant

  /** Who is a member according to the delivered events. */
  function Told(delivered: seq<PeerEvent>): set<PeerId> {
    if delivered == [] then {}
    else
      var k := |delivered| - 1;
      var before := Told(delivered[..k]);
      if delivered[k].kind == Join then before + {delivered[k].peer} else before - {delivered[k].peer}
  }

  /** Delivered events alternate for every peer, starting with a join. */
  ghost predicate Alternates(delivered: seq<PeerEvent>) {
    forall i :: 0 <= i < |delivered| ==> (delivered[i].kind == Join <==> delivered[i].peer !in Told(delivered[..i]))
  }

  /** Membership according to what was delivered and what is pending. */
  ghost predicate Seen(s: State, p: PeerId) {
    if p in s.log then s.log[p] == Join else p in Told(s.delivered)
  }

  /** A pending event is the opposite of what was delivered, an event in flight the opposite of both. */
  ghost predicate Consistent(s: State, p: PeerId) {
    && (p in s.log ==> (s.log[p] == Join <==> p !in Told(s.delivered)))
    && if s.inflight.Some? && s.inflight.value.peer == p
       then (s.inflight.value.kind == Join <==> p in s.members) && (Seen(s, p) <==> p !in s.members)
       else Seen(s, p) <==> p in s.members
  }

  /** Whoever sleeps while there is something in the log will be woken. */
  ghost predicate NobodyForgotten(s: State) {
    s.sleeping > 0 && s.log != map[] ==> s.signal || s.polling > 0
  }

  ghost predicate Inv(s: State) {
    Alternates(s.delivered) && (forall p :: Consistent(s, p)) && NobodyForgotten(s)
  }

  lemma InitInv(members: set<PeerId>)
    ensures Inv(Init(members))
  {
  }

  lemma ToldNext(delivered: seq<PeerEvent>, e: PeerEvent)
    ensures Told(delivered + [e]) == if e.kind == Join then Told(delivered) + {e.peer} else Told(delivered) - {e.peer}
  {
    assert (delivered + [e])[..|delivered|] == delivered;
  }

  lemma AlternatesNext(delivered: seq<PeerEvent>, e: PeerEvent)
    requires Alternates(delivered) && (e.kind == Join <==> e.peer !in Told(delivered))
    ensures Alternates(delivered + [e])
  {
    hide Told;
    var d := delivered + [e];
    forall i | 0 <= i < |d| ensures d[i].kind == Join <==> d[i].peer !in Told(d[..i]) {
      if i < |delivered| {
        assert d[..i] == delivered[..i];
      } else {
        assert d[..i] == delivered;
      }
    }
  }

  lemma NotifyKeeps(s: State)
    requires Inv(s) && s.inflight.Some?
    ensures Inv(Next(s, Notifies))
  {
    hide Told, Alternates;
    var s', evt := Next(s, Notifies), s.inflight.value;
    forall p ensures Consistent(s', p) {
      assert Consistent(s, p) && Consistent(s, evt.peer);
    }
  }

  lemma PullKeeps(s: State, p: PeerId)
    requires Inv(s) && Enabled(s, Pulls(p))
    ensures Inv(Next(s, Pulls(p)))
  {
    hide Told, Alternates;
    var s', e := Next(s, Pulls(p)), PeerEvent(s.log[p], p);
    assert Consistent(s, p);
    ToldNext(s.delivered, e);
    AlternatesNext(s.delivered, e);
    forall q ensures Consistent(s', q) {
      assert Consistent(s, q);
    }
  }

  lemma NextKeepsInv(s: State, ev: Event)
    requires Inv(s) && Enabled(s, ev)
    ensures Inv(Next(s, ev))
  {
    hide Told, Alternates;
    if ev.Notifies? {
      NotifyKeeps(s);
    } else if ev.Pulls? {
      PullKeeps(s, ev.pp);
    } else {
      forall p ensures Consistent(Next(s, ev), p) {
        assert Consistent(s, p);
      }
    }
  }

  // ------------------------------------------------------------- whole runs

  ghost predicate IsRun(run: seq<State>, events: seq<Event>) {
    && |run| == |events| + 1 && run[0] == Init(run[0].members)
    && forall i :: 0 <= i < |events| ==> Enabled(run[i], events[i]) && run[i + 1] == Next(run[i], events[i])
  }

  lemma {:induction false} RunKeepsInv(run: seq<State>, events: seq<Event>, i: nat)
    requires IsRun(run, events) && i < |run|
    ensures Inv(run[i])
  {
    hide Inv, Enabled, Next;
    if i == 0 {
      InitInv(run[0].members);
    } else {
      RunKeepsInv(run, events, i - 1);
      NextKeepsInv(run[i - 1], events[i - 1]);
    }
  }

  /** For every handler and peer: delivered events alternate and start with a join, and whenever no
      notification is under way the delivered events and the pending one give the membership. */
  lemma EventsTellMembership(run: seq<State>, events: seq<Event>, i: nat, p: PeerId)
    requires IsRun(run, events) && i < |run|
    ensures Alternates(run[i].delivered)
    ensures run[i].inflight.None? ==> (Seen(run[i], p) <==> p in run[i].members)
    ensures run[i].inflight.None? && p !in run[i].log ==> (p in Told(run[i].delivered) <==> p in run[i].members)
  {
    hide IsRun, Alternates, Told;
    RunKeepsInv(run, events, i);
    assert Consistent(run[i], p);
  }

  /** A consumer that sleeps while the log is not empty is never stuck: either another consumer is about
      to take an event and will raise the signal if more are left, or the sleeper can be woken and then
      finds an event. */
  lemma NobodySleepsForever(run: seq<State>, events: seq<Event>, i: nat)
    requires IsRun(run, events) && i < |run| && run[i].sleeping > 0 && run[i].log != map[]
    ensures exists p :: p in run[i].log
    ensures run[i].polling > 0 || Enabled(run[i], Wakes)
    ensures run[i].polling > 0 ==>
              forall p :: p in run[i].log ==>
                Enabled(run[i], Pulls(p)) && (run[i].log - {p} != map[] ==> Next(run[i], Pulls(p)).signal)
    ensures Enabled(run[i], Wakes) ==>
              forall p :: p in run[i].log ==> Enabled(Next(run[i], Wakes), Pulls(p))
  {
    hide IsRun, Alternates, Told;
    RunKeepsInv(run, events, i);
    assert run[i].log.Keys != {};
  }

  // -------------------------------------------------------------- the handler

  class EventHandler {
    var evtLog: map<PeerId, Kind>
    var evtLogCh: bool

    constructor (members: set<PeerId>)
      ensures evtLog == Init(members).log && !evtLogCh
    {
      evtLog, evtLogCh := map p | p in members :: Join, false;
    }

    method AddToEventLog(evt: PeerEvent)
      modifies this
      ensures (evtLog, evtLogCh) == AddToLog(old(evtLog), old(evtLogCh), evt)
    {
      if evt.peer !in evtLog {
        evtLog := evtLog[evt.peer := evt.kind];
        evtLogCh := true;
      } else if evtLog[evt.peer] != evt.kind {
        evtLog := evtLog - {evt.peer};
      }
    }

    /** Any pending event may be the next one. */
    method PullFromEventLog() returns (evt: Option<PeerEvent>)
      modifies this`evtLog
      ensures evt.None? <==> old(evtLog) == map[]
      ensures evt.None? ==> evtLog == old(evtLog)
      ensures evt.Some? ==>
                var p := evt.value.peer;
                p in old(evtLog) && evt.value.kind == old(evtLog)[p] && evtLog == old(evtLog) - {p}
    {
      if evtLog == map[] {
        return None;
      }
      var p :| p in evtLog;
      evt := Some(PeerEvent(evtLog[p], p));
      evtLog := evtLog - {p};
    }

    /** One round of NextPeerEvent under the lock; with None the caller goes to sleep on the channel. */
    method Poll(ghost s: State) returns (evt: Option<PeerEvent>)
      requires s.log == evtLog && s.signal == evtLogCh && s.polling > 0
      modifies this
      ensures var ev := if evt.None? then FindsNothing else Pulls(evt.value.peer);
              && Enabled(s, ev)
              && var s' := Next(s, ev);
                 s'.log == evtLog && s'.signal == evtLogCh && (evt.Some? ==> s'.delivered == s.delivered + [evt.value])
    {
      evt := PullFromEventLog();
      if evt.Some? && evtLog != map[] {
        evtLogCh := true;
      }
    }
  }

  /** The subscribers of one bitmask and its handlers. */
  class Bitmask {
    var members: set<PeerId>
    var handlers: set<EventHandler>

    constructor ()
      ensures members == {} && handlers == {}
    {
      members, handlers := {}, {};
    }

    /** Every handler gets the event. */
    method SendNotification(evt: PeerEvent)
      modifies handlers
      ensures forall h :: h in handlers ==> (h.evtLog, h.evtLogCh) == AddToLog(old(h.evtLog), old(h.evtLogCh), evt)
    {
      var rest := handlers;
      while rest != {}
        invariant rest <= handlers
        invariant forall h :: h in rest ==> h.evtLog == old(h.evtLog) && h.evtLogCh == old(h.evtLogCh)
        invariant forall h :: h in handlers - rest ==>
                  (h.evtLog, h.evtLogCh) == AddToLog(old(h.evtLog), old(h.evtLogCh), evt)
        decreases |rest|
      {
        var h :| h in rest;
        h.AddToEventLog(evt);
        rest := rest - {h};
      }
    }

    /** A subscription in an incoming RPC, or a peer that is gone: an event only if membership changes. */
    method SetMember(p: PeerId, subscribe: bool)
      modifies this`members, handlers
      ensures members == if subscribe then old(members) + {p} else old(members) - {p}
      ensures members == old(members) ==>
                forall h :: h in handlers ==> h.evtLog == old(h.evtLog) && h.evtLogCh == old(h.evtLogCh)
      ensures members != old(members) ==>
                forall h :: h in handlers ==>
                  (h.evtLog, h.evtLogCh)
                  == AddToLog(old(h.evtLog), old(h.evtLogCh), PeerEvent(if subscribe then Join else Leave, p))
    {
      if subscribe {
        if p !in members {
          members := members + {p};
          SendNotification(PeerEvent(Join, p));
        }
      } else if p in members {
        members := members - {p};
        SendNotification(PeerEvent(Leave, p));
      }
    }
  }
}

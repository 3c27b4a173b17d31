/** The message cache: a window of history slots over message ids and bitmask slices
    (go-libp2p-blossomsub/mcache.go). */
module MessageCache {
  import opened Identifiers
  import opened SeqFacts
  import opened Bitmasks

  type Id(==, !new)
  type Content(==, !new)

  datatype Msg = Msg(id: Id, bitmask: Bitmask, content: Content)

  datatype Entry = Entry(id: Id, bitmask: Bitmask)

  datatype State = State(msgs: map<Id, Msg>, requests: map<Id, map<PeerId, nat>>, history: seq<seq<Entry>>)

  // ------------------------------------------------------------- operations

  function Entries(id: Id, slices: seq<Bitmask>): seq<Entry> {
    seq(|slices|, i requires 0 <= i < |slices| => Entry(id, slices[i]))
  }

  function Put(s: State, m: Msg): State
    requires s.history != []
  {
    s.(msgs := s.msgs[m.id := m], history := s.history[0 := s.history[0] + Entries(m.id, Slices(m.bitmask))])
  }

  function Last<T>(s: seq<T>): T
    requires s != []
  {
    s[|s| - 1]
  }

  function Ids(entries: seq<Entry>): set<Id> {
    set e | e in entries :: e.id
  }

  /** The messages of the oldest slot are dropped, the slots move on, and an empty one is put in front. */
  function Shift(s: State): State
    requires s.history != []
  {
    State(s.msgs - Ids(Last(s.history)), s.requests - Ids(Last(s.history)), [[]] + s.history[..|s.history| - 1])
  }

  function RequestsOf(s: State, id: Id): map<PeerId, nat> {
    if id in s.requests then s.requests[id] else map[]
  }

  function CountOf(s: State, id: Id, p: PeerId): nat {
    if p in RequestsOf(s, id) then RequestsOf(s, id)[p] else 0
  }

  /** Each fetch by a peer is counted, as long as the message is there. */
  function Fetch(s: State, id: Id, p: PeerId): State {
    if id !in s.msgs then s
    else s.(requests := s.requests[id := RequestsOf(s, id)[p := CountOf(s, id, p) + 1]])
  }

  function OfBitmask(entries: seq<Entry>, b: Bitmask): seq<Id> {
    if entries == [] then []
    else OfBitmask(entries[..|entries| - 1], b) + if Last(entries).bitmask == b then [Last(entries).id] else []
  }

  /** The ids to advertise: newest slot first, each slot in the order of arrival. */
  function Advertised(history: seq<seq<Entry>>, b: Bitmask): seq<Id> {
    if history == [] then [] else Advertised(history[..|history| - 1], b) + OfBitmask(Last(history), b)
  }

  // ------------------------------------------------------------------- runs

  datatype Event = Putting(m: Msg) | Shifting | Fetching(id: Id, peer: PeerId)

  function Next(s: State, ev: Event): State
    requires s.history != []
  {
    match ev
    case Putting(m) => Put(s, m)
    case Shifting => Shift(s)
    case Fetching(id, p) => Fetch(s, id, p)
  }

  ghost predicate IsRun(run: seq<State>, events: seq<Event>) {
    && |run| == |events| + 1 && run[0].history != []
    && forall i :: 0 <= i < |events| ==> run[i].history != [] && run[i + 1] == Next(run[i], events[i])
  }

  function Shifts(events: seq<Event>): nat {
    if events == [] then 0 else Shifts(events[..|events| - 1]) + if Last(events).Shifting? then 1 else 0
  }

  ghost predicate PutsNo(events: seq<Event>, id: Id) {
    forall ev :: ev in events && ev.Putting? ==> ev.m.id != id
  }

  /** The entries with a given id, in order. */
  function OfId(entries: seq<Entry>, id: Id): seq<Bitmask> {
    if entries == [] then []
    else OfId(entries[..|entries| - 1], id) + if Last(entries).id == id then [Last(entries).bitmask] else []
  }

  lemma {:induction false} OfIdSplit(a: seq<Entry>, b: seq<Entry>, id: Id)
    ensures OfId(a + b, id) == OfId(a, id) + OfId(b, id)
  {
    if b == [] {
      assert a + b == a;
    } else {
      OfIdSplit(a, b[..|b| - 1], id);
      assert (a + b)[..|a + b| - 1] == a + b[..|b| - 1];
    }
  }

  lemma {:induction false} OfIdEntries(id: Id, slices: seq<Bitmask>, other: Id)
    ensures OfId(Entries(id, slices), other) == if other == id then slices else []
  {
    if slices != [] {
      var k := |slices| - 1;
      OfIdEntries(id, slices[..k], other);
      assert Entries(id, slices)[..k] == Entries(id, slices[..k]);
    }
  }

  lemma {:induction false} OfIdNone(entries: seq<Entry>, id: Id)
    ensures id in Ids(entries) <==> OfId(entries, id) != []
  {
    if entries != [] {
      OfIdNone(entries[..|entries| - 1], id);
      IdsLast(entries);
      hide Ids;
    }
  }

  lemma IdsLast(entries: seq<Entry>)
    requires entries != []
    ensures Ids(entries) == Ids(entries[..|entries| - 1]) + {Last(entries).id}
  {
    assert entries == entries[..|entries| - 1] + [Last(entries)];
  }

  /** Where the entries of an id are: k slots further than they were in `start`, and its message is
      there exactly if none of them has been shifted out. */
  ghost predicate Moved(start: State, s: State, id: Id, k: nat) {
    && |s.history| == |start.history|
    && (forall n :: 0 <= n < |s.history| ==>
          OfId(s.history[n], id) == if n < k then [] else OfId(start.history[n - k], id))
    && (id in start.msgs ==>
          (if (forall n :: 0 <= n < |start.history| && |start.history| - k <= n ==> OfId(start.history[n], id) == [])
           then id in s.msgs && s.msgs[id] == start.msgs[id] else id !in s.msgs))
  }

  lemma MovedNext(start: State, s: State, id: Id, k: nat, ev: Event)
    requires Moved(start, s, id, k) && s.history != [] && (ev.Putting? ==> ev.m.id != id)
    ensures Moved(start, Next(s, ev), id, if ev.Shifting? then k + 1 else k)
  {
    hide OfId, Slices;
    match ev
    case Putting(m) =>
      OfIdSplit(s.history[0], Entries(m.id, Slices(m.bitmask)), id);
      OfIdEntries(m.id, Slices(m.bitmask), id);
    case Shifting =>
      OfIdNone(Last(s.history), id);
      OfIdNone([], id);
      MovedShift(start, s, id, k);
    case Fetching(_, _) =>
  }

  lemma MovedShift(start: State, s: State, id: Id, k: nat)
    requires Moved(start, s, id, k) && s.history != []
    requires id in Ids(Last(s.history)) <==> OfId(Last(s.history), id) != []
    requires OfId([], id) == []
    ensures Moved(start, Shift(s), id, k + 1)
  {
    hide OfId, Ids;
    var n := |s.history|;
    if k < n {
      assert OfId(Last(s.history), id) == OfId(start.history[n - 1 - k], id);
    }
  }

  lemma MovedStart(s: State, id: Id)
    ensures Moved(s, s, id, 0)
  {
  }

  lemma OneMoreEvent(events: seq<Event>, i: nat, j: nat, id: Id)
    requires i < j <= |events| && PutsNo(events[i..j], id)
    ensures var k := Shifts(events[i..j - 1]);
            Shifts(events[i..j]) == if events[j - 1].Shifting? then k + 1 else k
    ensures PutsNo(events[i..j - 1], id) && (events[j - 1].Putting? ==> events[j - 1].m.id != id)
  {
    var all, front := events[i..j], events[i..j - 1];
    assert all[..|all| - 1] == front && Last(all) == events[j - 1];
    assert events[j - 1] in all && forall ev :: ev in front ==> ev in all;
  }

  lemma NoEvents(events: seq<Event>, i: nat)
    requires i <= |events|
    ensures Shifts(events[i..i]) == 0
  {
  }

  lemma RunStep(run: seq<State>, events: seq<Event>, j: nat)
    requires IsRun(run, events) && 0 < j < |run|
    ensures |events| == |run| - 1 && run[j - 1].history != [] && run[j] == Next(run[j - 1], events[j - 1])
  {
    hide Next;
    assert run[j - 1 + 1] == Next(run[j - 1], events[j - 1]);
  }

  lemma {:induction false} RunMoves(run: seq<State>, events: seq<Event>, i: nat, j: nat, id: Id)
    requires IsRun(run, events) && i <= j < |run| && PutsNo(events[i..j], id)
    ensures Moved(run[i], run[j], id, Shifts(events[i..j]))
    decreases j
  {
    hide Moved, Next, Shifts, PutsNo;
    if i == j {
      NoEvents(events, i);
      MovedStart(run[i], id);
    } else {
      RunStep(run, events, j);
      hide IsRun;
      OneMoreEvent(events, i, j, id);
      RunMoves(run, events, i, j - 1, id);
      MovedNext(run[i], run[j - 1], id, Shifts(events[i..j - 1]), events[j - 1]);
    }
  }

  // ------------------------------------------------------------ the windows

  /** How often b is among the bitmasks of an id, over all slots. */
  ghost function Occurrences(history: seq<seq<Entry>>, id: Id, b: Bitmask): nat {
    if history == [] then 0
    else Occurrences(history[..|history| - 1], id, b) + multiset(OfId(Last(history), id))[b]
  }

  lemma {:induction false} CountInSlot(entries: seq<Entry>, id: Id, b: Bitmask)
    ensures multiset(OfBitmask(entries, b))[id] == multiset(OfId(entries, id))[b]
  {
    if entries != [] {
      CountInSlot(entries[..|entries| - 1], id, b);
    }
  }

  lemma {:induction false} CountAdvertised(history: seq<seq<Entry>>, id: Id, b: Bitmask)
    ensures multiset(Advertised(history, b))[id] == Occurrences(history, id, b)
  {
    hide OfBitmask, OfId;
    if history != [] {
      CountAdvertised(history[..|history| - 1], id, b);
      CountInSlot(Last(history), id, b);
    }
  }

  /** Entries in one slot only. */
  lemma {:induction false} CountOneSlot(history: seq<seq<Entry>>, id: Id, b: Bitmask, k: nat, slices: seq<Bitmask>)
    requires forall n :: 0 <= n < |history| ==> OfId(history[n], id) == if n == k then slices else []
    ensures Occurrences(history, id, b) == if k < |history| then multiset(slices)[b] else 0
  {
    hide OfId;
    if history != [] {
      CountOneSlot(history[..|history| - 1], id, b, k, slices);
    }
  }

  lemma {:induction false} CountDistinct<T(!new)>(s: seq<T>, x: T)
    requires NoDup(s)
    ensures multiset(s)[x] == if x in s then 1 else 0
  {
    if s != [] {
      CountDistinct(s[..|s| - 1], x);
      assert s == s[..|s| - 1] + [s[|s| - 1]];
    }
  }

  ghost predicate Fresh(s: State, id: Id) {
    forall n :: 0 <= n < |s.history| ==> OfId(s.history[n], id) == []
  }

  lemma PutFresh(s: State, m: Msg)
    requires s.history != [] && Fresh(s, m.id)
    ensures var h := Put(s, m).history;
            forall n :: 0 <= n < |h| ==> OfId(h[n], m.id) == if n == 0 then Slices(m.bitmask) else []
  {
    hide OfId, Slices, Entries;
    OfIdSplit(s.history[0], Entries(m.id, Slices(m.bitmask)), m.id);
    OfIdEntries(m.id, Slices(m.bitmask), m.id);
  }

  /** A message put under a fresh id is advertised once for each of its slices and for nothing else while
      fewer than `gossip` shifts have passed, and can be fetched exactly while fewer than `history` have. */
  lemma FreshWindow(run: seq<State>, events: seq<Event>, i: nat, j: nat, gossip: nat, b: Bitmask)
    requires IsRun(run, events) && i < j < |run| && events[i].Putting? && gossip <= |run[j].history|
    requires Fresh(run[i], events[i].m.id) && PutsNo(events[i + 1..j], events[i].m.id)
    ensures var m, k := events[i].m, Shifts(events[i + 1..j]);
            && (m.id in run[j].msgs <==> k < |run[j].history|)
            && (m.id in run[j].msgs ==> run[j].msgs[m.id] == m)
            && multiset(Advertised(run[j].history[..gossip], b))[m.id]
               == if k < gossip && b in Slices(m.bitmask) then 1 else 0
  {
    hide OfId, Slices, Advertised, Shifts, Occurrences, Entries;
    var m, k := events[i].m, Shifts(events[i + 1..j]);
    assert run[i + 1] == Put(run[i], m);
    PutFresh(run[i], m);
    RunMoves(run, events, i + 1, j, m.id);
    SlicesSound(m.bitmask);
    CountAdvertised(run[j].history[..gossip], m.id, b);
    CountOneSlot(run[j].history[..gossip], m.id, b, k, Slices(m.bitmask));
    CountDistinct(Slices(m.bitmask), b);
    assert |run[i + 1].history| == |run[j].history| && OfId(run[i + 1].history[0], m.id) != [];
  }

  /** For any id, also one that is put again: the message can be fetched exactly as long as none of the
      entries that the id had right after the put has been shifted out. A second put does not prolong
      the life of an id. */
  lemma AnyWindow(run: seq<State>, events: seq<Event>, i: nat, j: nat)
    requires IsRun(run, events) && i < j < |run| && events[i].Putting? && PutsNo(events[i + 1..j], events[i].m.id)
    ensures var id, k, h := events[i].m.id, Shifts(events[i + 1..j]), run[i + 1].history;
            id in run[j].msgs <==> forall n :: 0 <= n < |h| && |h| - k <= n ==> id !in Ids(h[n])
  {
    hide OfId, Shifts, Ids, Slices;
    var id, k, h := events[i].m.id, Shifts(events[i + 1..j]), run[i + 1].history;
    RunMoves(run, events, i + 1, j, id);
    assert id in run[i + 1].msgs;
    forall n | 0 <= n < |h| ensures id in Ids(h[n]) <==> OfId(h[n], id) != [] {
      OfIdNone(h[n], id);
    }
  }

  /** With two slots, a message that is put, shifted once and put again is lost with the next shift,
      although two shifts are needed to lose a message that was put once. */
  lemma SecondPutIsLost(m: Msg)
    ensures var s := Put(Shift(Put(State(map[], map[], [[], []]), m)), m);
            m.id in s.msgs && |s.history| == 2 && m.id !in Shift(s).msgs
  {
    SlicesSound(m.bitmask);
    hide Slices;
    var es := Entries(m.id, Slices(m.bitmask));
    var s1 := Put(State(map[], map[], [[], []]), m);
    assert s1.history == [[] + es, []];
    assert [] + es == es;
    var s := Put(Shift(s1), m);
    assert Last(s.history) == es;
    assert es[0] in es && es[0].id == m.id;
  }

  /** Requests are only counted for messages that are there, and are forgotten with them. */
  lemma {:induction false} RequestsFollowMessages(run: seq<State>, events: seq<Event>, i: nat)
    requires IsRun(run, events) && i < |run| && run[0].requests.Keys <= run[0].msgs.Keys
    ensures run[i].requests.Keys <= run[i].msgs.Keys
  {
    hide Slices, Ids;
    if i > 0 {
      RequestsFollowMessages(run, events, i - 1);
      assert run[i] == Next(run[i - 1], events[i - 1]);
    }
  }

  // -------------------------------------------------------- how often asked

  function Fetches(events: seq<Event>, id: Id, p: PeerId): nat {
    if events == [] then 0
    else Fetches(events[..|events| - 1], id, p) + if Last(events) == Fetching(id, p) then 1 else 0
  }

  lemma FetchesNext(events: seq<Event>, i: nat, j: nat, id: Id, p: PeerId)
    requires i < j <= |events|
    ensures Fetches(events[i..j], id, p)
            == Fetches(events[i..j - 1], id, p) + if events[j - 1] == Fetching(id, p) then 1 else 0
  {
    var all := events[i..j];
    assert all[..|all| - 1] == events[i..j - 1] && Last(all) == events[j - 1];
  }

  lemma CountNext(s: State, ev: Event, id: Id, p: PeerId)
    requires s.history != [] && id in s.msgs && id in Next(s, ev).msgs
    ensures CountOf(Next(s, ev), id, p) == CountOf(s, id, p) + if ev == Fetching(id, p) then 1 else 0
  {
    hide Ids, Slices;
  }

  /** While a message is there, the count of a peer grows by one with each of its own requests and with nothing
      else. */
  lemma {:induction false} RequestsAreCounted(run: seq<State>, events: seq<Event>, i: nat, j: nat, id: Id, p: PeerId)
    requires IsRun(run, events) && i <= j < |run| && forall n :: i <= n <= j ==> id in run[n].msgs
    ensures CountOf(run[j], id, p) == CountOf(run[i], id, p) + Fetches(events[i..j], id, p)
    decreases j
  {
    hide Next, CountOf;
    if i < j {
      RunStep(run, events, j);
      RequestsAreCounted(run, events, i, j - 1, id, p);
      CountNext(run[j - 1], events[j - 1], id, p);
      FetchesNext(events, i, j, id, p);
    } else {
      assert events[i..j] == [];
    }
  }

  // ------------------------------------------------ the order of advertising

  /** The ids are those of the entries with the bitmask, in the order of the entries. */
  ghost predicate InOrder(entries: seq<Entry>, b: Bitmask, at: seq<nat>, ids: seq<Id>) {
    && |at| == |ids| && (forall i, j :: 0 <= i < j < |at| ==> at[i] < at[j])
    && (forall i :: 0 <= i < |at| ==> at[i] < |entries| && entries[at[i]] == Entry(ids[i], b))
    && forall k :: 0 <= k < |entries| && entries[k].bitmask == b ==> k in at
  }

  lemma {:induction false} OfBitmaskInOrder(entries: seq<Entry>, b: Bitmask) returns (at: seq<nat>)
    ensures InOrder(entries, b, at, OfBitmask(entries, b))
  {
    if entries == [] {
      at := [];
    } else {
      var k := |entries| - 1;
      at := OfBitmaskInOrder(entries[..k], b);
      InOrderNext(entries, b, at, OfBitmask(entries[..k], b));
      hide InOrder;
      if entries[k].bitmask == b {
        at := at + [k];
      }
      assert OfBitmask(entries[..k], b) + [] == OfBitmask(entries[..k], b);
    }
  }

  lemma InOrderNext(entries: seq<Entry>, b: Bitmask, at: seq<nat>, ids: seq<Id>)
    requires entries != [] && InOrder(entries[..|entries| - 1], b, at, ids)
    ensures var k := |entries| - 1;
            if entries[k].bitmask == b then InOrder(entries, b, at + [k], ids + [entries[k].id])
            else InOrder(entries, b, at, ids)
  {
    var k := |entries| - 1;
    assert forall i :: 0 <= i < k ==> entries[..k][i] == entries[i];
    assert (at + [k])[|at|] == k && forall i :: 0 <= i < |at| ==> (at + [k])[i] == at[i];
  }

  /** A list of ids is made of one stretch per slot, the newest slot first. */
  ghost predicate BySlot(history: seq<seq<Entry>>, b: Bitmask, parts: seq<seq<Id>>, ids: seq<Id>) {
    && |parts| == |history| && ids == Flat(parts)
    && forall n :: 0 <= n < |history| ==> Lists(history[n], b, parts[n])
  }

  ghost predicate Lists(entries: seq<Entry>, b: Bitmask, ids: seq<Id>) {
    exists at :: InOrder(entries, b, at, ids)
  }

  ghost function Flat(parts: seq<seq<Id>>): seq<Id> {
    if parts == [] then [] else Flat(parts[..|parts| - 1]) + Last(parts)
  }

  /** What is advertised for a bitmask: the ids of its entries, newest slot first, each slot in the order of
      arrival. */
  lemma {:induction false} AdvertisedBySlot(history: seq<seq<Entry>>, b: Bitmask) returns (parts: seq<seq<Id>>)
    ensures BySlot(history, b, parts, Advertised(history, b))
  {
    hide InOrder, OfBitmask;
    if history == [] {
      parts := [];
    } else {
      var k := |history| - 1;
      var front := AdvertisedBySlot(history[..k], b);
      var at := OfBitmaskInOrder(history[k], b);
      parts := front + [OfBitmask(history[k], b)];
      assert parts[..k] == front;
      assert Lists(history[k], b, parts[k]);
      forall n | 0 <= n < |history| ensures Lists(history[n], b, parts[n]) {
        if n < k {
          assert history[..k][n] == history[n] && parts[n] == front[n];
        }
      }
    }
  }
}

/** Provider records: a write-through cache over a datastore, with a garbage collection that runs
    interleaved with adds and gets (go-libp2p-kad-dht/providers/providers_manager.go). */
module Providers {
  import opened Identifiers
  import opened Options

  type Key(==, !new)

  /** A provider record is named by its key and its peer. */
  type Name = (Key, PeerId)

  /** The stored value is the time of the last add, or bytes that are no time. */
  datatype Record = At(time: int) | Garbage

  /** A running collection: when it was started, the records it must skip, and every value a record
      has had since the collection began, any of which the datastore query may still deliver. */
  datatype Collection = Collection(time: int, skip: set<Name>, seen: set<(Name, Record)>)

  datatype State = State(
    store: map<Name, Record>, cache: map<Key, map<PeerId, int>>, now: int, gc: Option<Collection>)

  predicate Expired(r: Record, now: int, validity: nat) {
    r.Garbage? || now - r.time > validity
  }

  // -------------------------------------------------------------- the steps

  /** Loading a key first deletes its expired and unreadable records. */
  function Purged(store: map<Name, Record>, k: Key, now: int, validity: nat): map<Name, Record> {
    map x | x in store && !(x.0 == k && Expired(store[x], now, validity)) :: store[x]
  }

  /** The provider set holds exactly the records of the key. */
  ghost predicate Mirrors(m: map<PeerId, int>, store: map<Name, Record>, k: Key) {
    && (forall p :: p in m <==> (k, p) in store)
    && (forall p :: p in m ==> store[(k, p)] == At(m[p]))
  }

  datatype Event =
    | Tick
    | Add(key: Key, peer: PeerId)
    | Get(gkey: Key, provs: set<PeerId>)
    | Evict(ekey: Key)
    | CollectionStarts(time: int)
    | CollectionVisits(name: Name, record: Record)
    | CollectionEnds

  function AddProvider(s: State, k: Key, p: PeerId): State {
    s.(store := s.store[(k, p) := At(s.now)],
       cache := if k in s.cache then s.cache[k := s.cache[k][p := s.now]] else s.cache,
       gc := if s.gc.None? then None
             else Some(s.gc.value.(skip := s.gc.value.skip + {(k, p)},
                                   seen := s.gc.value.seen + {((k, p), At(s.now))})))
  }

  ghost predicate GetProviders(validity: nat, s: State, s': State, k: Key, provs: set<PeerId>) {
    if k in s.cache then s' == s && provs == s.cache[k].Keys
    else
      && s'.store == Purged(s.store, k, s.now, validity) && s'.now == s.now && s'.gc == s.gc
      && exists m ::
           && Mirrors(m, s'.store, k) && provs == m.Keys
           && s'.cache == if m == map[] then s.cache else s.cache[k := m]
  }

  function StartCollection(s: State, time: int): State {
    s.(cache := map[], gc := Some(Collection(time, {}, set x | x in s.store :: (x, s.store[x]))))
  }

  function VisitRecord(validity: nat, s: State, x: Name, r: Record): State {
    if s.gc.None? || x in s.gc.value.skip || !Expired(r, s.gc.value.time, validity) then s
    else s.(store := s.store - {x})
  }

  ghost predicate Step(validity: nat, s: State, ev: Event, s': State) {
    match ev
    case Tick => s.now <= s'.now && s' == s.(now := s'.now)
    case Add(k, p) => s' == AddProvider(s, k, p)
    case Get(k, provs) => GetProviders(validity, s, s', k, provs)
    case Evict(k) => s' == s.(cache := s.cache - {k})
    case CollectionStarts(time) => time <= s.now && s.gc.None? && s' == StartCollection(s, time)
    case CollectionVisits(x, r) => s.gc.Some? && (x, r) in s.gc.value.seen && s' == VisitRecord(validity, s, x, r)
    case CollectionEnds => s.gc.Some? && s' == s.(gc := None)
  }

  // ----------------------------------------------------------- the invariant

  ghost predicate CacheMirrors(s: State) {
    forall k :: k in s.cache ==> Mirrors(s.cache[k], s.store, k)
  }

  /** What the collection has seen of a record it does not skip is the record, if it is still there. */
  ghost predicate NothingStale(s: State) {
    s.gc.Some? ==>
      var g := s.gc.value;
      && (forall x :: x in s.store ==> (x, s.store[x]) in g.seen)
      && (forall x, r :: (x, r) in g.seen && x !in g.skip && x in s.store ==> s.store[x] == r)
  }

  /** The cache was emptied when the collection started, so what it holds is not for collection. */
  ghost predicate CacheIsFresh(validity: nat, s: State) {
    s.gc.Some? ==>
      && s.gc.value.time <= s.now
      && forall k, p :: k in s.cache && p in s.cache[k] ==> s.gc.value.time - s.cache[k][p] <= validity
  }

  /** A record is skipped because it was added during the collection. */
  ghost predicate SkippedAreFresh(s: State) {
    s.gc.Some? ==>
      forall x :: x in s.gc.value.skip && x in s.store ==> s.store[x].At? && s.store[x].time >= s.gc.value.time
  }

  ghost predicate Inv(validity: nat, s: State) {
    CacheMirrors(s) && NothingStale(s) && CacheIsFresh(validity, s) && SkippedAreFresh(s)
  }

  /** A record of this name, added at time t or later, is in the datastore. */
  ghost predicate Recorded(s: State, x: Name, t: int) {
    x in s.store && s.store[x].At? && s.store[x].time >= t
  }

  lemma AddKeeps(validity: nat, s: State, k: Key, p: PeerId)
    requires Inv(validity, s)
    ensures Inv(validity, AddProvider(s, k, p))
    ensures forall x, t :: Recorded(s, x, t) && t <= s.now ==> Recorded(AddProvider(s, k, p), x, t)
  {
    var s' := AddProvider(s, k, p);
    forall k' | k' in s'.cache ensures Mirrors(s'.cache[k'], s'.store, k') {
      assert Mirrors(s.cache[k'], s.store, k');
    }
  }

  lemma GetKeeps(validity: nat, s: State, s': State, k: Key, provs: set<PeerId>)
    requires Inv(validity, s) && GetProviders(validity, s, s', k, provs)
    ensures Inv(validity, s')
    ensures forall x, t :: Recorded(s, x, t) && s.now - t <= validity ==> Recorded(s', x, t)
    ensures forall p :: p in provs <==> (k, p) in s'.store
  {
    if k !in s.cache {
      forall k' | k' in s'.cache ensures Mirrors(s'.cache[k'], s'.store, k') {
        if k' != k {
          assert Mirrors(s.cache[k'], s.store, k');
        }
      }
    } else {
      assert Mirrors(s.cache[k], s.store, k);
    }
  }

  lemma StartKeeps(validity: nat, s: State, time: int)
    requires Inv(validity, s) && time <= s.now
    ensures Inv(validity, StartCollection(s, time))
  {
  }

  lemma VisitKeeps(validity: nat, s: State, x: Name, r: Record)
    requires Inv(validity, s) && s.gc.Some? && (x, r) in s.gc.value.seen
    ensures Inv(validity, VisitRecord(validity, s, x, r))
    ensures forall y, t :: Recorded(s, y, t) && s.now - t <= validity ==> Recorded(VisitRecord(validity, s, x, r), y, t)
  {
    var s' := VisitRecord(validity, s, x, r);
    if s' != s && x in s.store {
      assert s.store[x] == r;
      forall k | k in s'.cache ensures Mirrors(s'.cache[k], s'.store, k) {
        assert Mirrors(s.cache[k], s.store, k);
      }
    }
  }

  lemma StepKeeps(validity: nat, s: State, ev: Event, s': State)
    requires Inv(validity, s) && Step(validity, s, ev, s')
    ensures Inv(validity, s') && s.now <= s'.now
    ensures forall x, t :: Recorded(s, x, t) && t <= s.now && s'.now - t <= validity ==> Recorded(s', x, t)
  {
    match ev
    case Tick =>
    case Add(k, p) => AddKeeps(validity, s, k, p);
    case Get(k, provs) => GetKeeps(validity, s, s', k, provs);
    case Evict(k) =>
    case CollectionStarts(time) => StartKeeps(validity, s, time);
    case CollectionVisits(x, r) => VisitKeeps(validity, s, x, r);
    case CollectionEnds =>
  }

  // ------------------------------------------------------------- whole runs

  /** The datastore may hold anything at first; the cache is empty and no collection is running. */
  ghost predicate IsRun(validity: nat, run: seq<State>, events: seq<Event>) {
    && |run| == |events| + 1 && run[0].cache == map[] && run[0].gc.None?
    && forall i :: 0 <= i < |events| ==> Step(validity, run[i], events[i], run[i + 1])
  }

  lemma {:induction false} RunKeepsInv(validity: nat, run: seq<State>, events: seq<Event>, i: nat)
    requires IsRun(validity, run, events) && i < |run|
    ensures Inv(validity, run[i])
  {
    hide Step;
    if i > 0 {
      RunKeepsInv(validity, run, events, i - 1);
      StepKeeps(validity, run[i - 1], events[i - 1], run[i]);
    }
  }

  /** Over every interleaving, each cached provider set is the datastore's set for that key. */
  lemma CacheIsExact(validity: nat, run: seq<State>, events: seq<Event>, i: nat, k: Key)
    requires IsRun(validity, run, events) && i < |run| && k in run[i].cache
    ensures Mirrors(run[i].cache[k], run[i].store, k)
  {
    hide IsRun;
    RunKeepsInv(validity, run, events, i);
  }

  /** A record added at event i stays until its validity is over, whatever is added, read, evicted or
      collected meanwhile. */
  lemma {:induction false} AddedStays(validity: nat, run: seq<State>, events: seq<Event>, i: nat, j: nat)
    requires IsRun(validity, run, events) && i < j < |run| && events[i].Add?
    requires run[j].now - run[i].now <= validity
    ensures Recorded(run[j], (events[i].key, events[i].peer), run[i].now) && run[i].now <= run[j].now
    decreases j
  {
    hide Recorded, Step, Inv;
    if j == i + 1 {
      AddRecords(validity, run[i], events[i], run[j]);
    } else {
      RunKeepsInv(validity, run, events, j - 1);
      StepKeeps(validity, run[j - 1], events[j - 1], run[j]);
      AddedStays(validity, run, events, i, j - 1);
    }
  }

  lemma AddRecords(validity: nat, s: State, ev: Event, s': State)
    requires Step(validity, s, ev, s') && ev.Add?
    ensures Recorded(s', (ev.key, ev.peer), s.now) && s'.now == s.now
  {
  }

  /** A provider added at time t is returned by every get until t + validity; and every get returns
      exactly the records of its key. */
  lemma AddedIsReturned(validity: nat, run: seq<State>, events: seq<Event>, i: nat, j: nat)
    requires IsRun(validity, run, events) && i < j < |events| && events[i].Add? && events[j].Get?
    requires events[j].gkey == events[i].key && run[j].now - run[i].now <= validity
    ensures events[i].peer in events[j].provs
    ensures forall p :: p in events[j].provs <==> (events[j].gkey, p) in run[j + 1].store
  {
    AddedStays(validity, run, events, i, j);
    RunKeepsInv(validity, run, events, j);
    assert Step(validity, run[j], events[j], run[j + 1]);
    GetKeeps(validity, run[j], run[j + 1], events[j].gkey, events[j].provs);
  }

  /** The record is gone or was still valid when the running collection began. */
  ghost predicate Clean(validity: nat, s: State, x: Name) {
    s.gc.Some? && (x in s.store ==> !Expired(s.store[x], s.gc.value.time, validity))
  }

  lemma StepKeepsClean(validity: nat, s: State, ev: Event, s': State, x: Name)
    requires Inv(validity, s) && Step(validity, s, ev, s') && !ev.CollectionEnds?
    requires Clean(validity, s, x) || (ev.CollectionVisits? && ev.name == x)
    ensures Clean(validity, s', x)
  {
  }

  /** Every record a collection visits is clean for the rest of the collection: expired records do not
      survive it. */
  lemma {:induction false} VisitedIsClean(validity: nat, run: seq<State>, events: seq<Event>, i: nat, j: nat)
    requires IsRun(validity, run, events) && i < j < |run| && events[i].CollectionVisits?
    requires forall n :: i <= n < j ==> !events[n].CollectionEnds?
    ensures Clean(validity, run[j], events[i].name)
    decreases j
  {
    hide Step, Clean, Inv;
    RunKeepsInv(validity, run, events, j - 1);
    if j > i + 1 {
      VisitedIsClean(validity, run, events, i, j - 1);
    }
    StepKeepsClean(validity, run[j - 1], events[j - 1], run[j], events[i].name);
  }

  // ------------------------------------------------------ nothing but records

  /** A get that is not served from the cache returns exactly the providers whose record is readable and not
      older than the validity, and deletes the other records of its key and no others. */
  lemma LoadedAreValid(validity: nat, s: State, s': State, k: Key, provs: set<PeerId>)
    requires k !in s.cache && GetProviders(validity, s, s', k, provs)
    ensures forall p :: p in provs <==>
              (k, p) in s.store && s.store[(k, p)].At? && s.now - s.store[(k, p)].time <= validity
    ensures forall x :: x in s'.store <==> x in s.store && (x.0 == k ==> x.1 in provs)
    ensures forall x :: x in s'.store ==> s'.store[x] == s.store[x]
  {
    forall x | x in s'.store && x.0 == k ensures x == (k, x.1) {
    }
    forall x | x in s.store && x.0 == k ensures x == (k, x.1) {
    }
  }

  /** A collection deletes the record it visits if and only if it is not to be skipped and the delivered value
      is unreadable or was too old when the collection began; it touches nothing else. */
  lemma VisitDeletes(validity: nat, s: State, x: Name, r: Record)
    requires s.gc.Some?
    ensures var s' := VisitRecord(validity, s, x, r);
            && s' == s.(store := s'.store)
            && (forall y :: y in s'.store ==> y in s.store && s'.store[y] == s.store[y])
            && forall y :: y in s.store && y !in s'.store <==>
                 y == x && x in s.store && x !in s.gc.value.skip && (r.Garbage? || s.gc.value.time - r.time > validity)
  {
  }

  /** A record in the datastore of a run that began with none was written by an add, at the time it says. */
  ghost predicate Added(run: seq<State>, events: seq<Event>, j: nat, x: Name, r: Record)
    requires j <= |events| < |run|
  {
    exists i :: 0 <= i < j && events[i] == Add(x.0, x.1) && r == At(run[i].now)
  }

  lemma StepWrites(validity: nat, s: State, ev: Event, s': State, x: Name)
    requires Step(validity, s, ev, s') && x in s'.store
    ensures (x in s.store && s'.store[x] == s.store[x]) || (ev == Add(x.0, x.1) && s'.store[x] == At(s.now))
  {
  }

  lemma {:induction false} RecordsAreAdds(validity: nat, run: seq<State>, events: seq<Event>, j: nat, x: Name)
    requires IsRun(validity, run, events) && run[0].store == map[] && j < |run| && x in run[j].store
    ensures Added(run, events, j, x, run[j].store[x])
  {
    hide Step;
    if j > 0 {
      StepWrites(validity, run[j - 1], events[j - 1], run[j], x);
      if x in run[j - 1].store && run[j].store[x] == run[j - 1].store[x] {
        RecordsAreAdds(validity, run, events, j - 1, x);
        var i :| 0 <= i < j - 1 && events[i] == Add(x.0, x.1) && run[j - 1].store[x] == At(run[i].now);
      }
    }
  }

  /** Whoever is returned for a key was added for it. */
  lemma OnlyAddedAreReturned(validity: nat, run: seq<State>, events: seq<Event>, j: nat, p: PeerId)
    requires IsRun(validity, run, events) && run[0].store == map[] && j < |events| && events[j].Get?
    requires p in events[j].provs
    ensures exists i :: 0 <= i < j && events[i] == Add(events[j].gkey, p)
  {
    var x := (events[j].gkey, p);
    RunKeepsInv(validity, run, events, j);
    assert Step(validity, run[j], events[j], run[j + 1]);
    GetKeeps(validity, run[j], run[j + 1], events[j].gkey, events[j].provs);
    assert x in run[j + 1].store;
    RecordsAreAdds(validity, run, events, j + 1, x);
    var i :| 0 <= i < j + 1 && events[i] == Add(x.0, x.1) && run[j + 1].store[x] == At(run[i].now);
    assert i != j;
  }
}

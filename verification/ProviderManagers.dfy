/** The provider set and the provider manager as objects, proved to take the steps of `Providers`
    (go-libp2p-kad-dht/providers/provider_set.go and providers_manager.go). */
module ProviderManagers {
  import opened Identifiers
  import opened Options
  import opened SeqFacts
  import opened Providers

  /** The providers in the order they were first added, and the time of the last add of each. */
  class ProviderSet {
    var providers: seq<PeerId>
    var times: map<PeerId, int>

    ghost predicate Valid()
      reads this
    {
      NoDup(providers) && Elems(providers) == times.Keys
    }

    constructor ()
      ensures Valid() && times == map[] && providers == []
    {
      providers, times := [], map[];
    }

    method SetVal(p: PeerId, t: int)
      requires Valid()
      modifies this
      ensures Valid() && times == old(times)[p := t]
      ensures providers == if p in old(times) then old(providers) else old(providers) + [p]
    {
      if p !in times {
        assert p !in Elems(providers);
        Snoc(providers, p);
        providers := providers + [p];
      }
      times := times[p := t];
    }
  }

  class ProviderManager {
    const validity: nat
    var store: map<Name, Record>
    var cache: map<Key, ProviderSet>
    var now: int
    var gc: Option<Collection>

    ghost predicate Valid()
      reads this, cache.Values
    {
      && (forall k :: k in cache ==> cache[k].Valid())
      && (forall k, k' :: k in cache && k' in cache && k != k' ==> cache[k] != cache[k'])
    }

    ghost function View(): State
      reads this, cache.Values
    {
      State(store, map k | k in cache :: cache[k].times, now, gc)
    }

    constructor (validity: nat, store: map<Name, Record>, now: int)
      ensures Valid() && this.validity == validity
      ensures View() == State(store, map[], now, None)
    {
      this.validity := validity;
      this.store := store;
      this.now := now;
      cache, gc := map[], None;
    }

    method AddProv(k: Key, p: PeerId)
      requires Valid()
      modifies this, cache.Values
      ensures Valid() && Step(validity, old(View()), Add(k, p), View())
    {
      hide Step, AddProvider, ProviderSet.Valid;
      ghost var s := View();
      if k in cache {
        cache[k].SetVal(p, now);
      }
      store := store[(k, p) := At(now)];
      if gc.Some? {
        gc := Some(gc.value.(skip := gc.value.skip + {(k, p)}, seen := gc.value.seen + {((k, p), At(now))}));
      }
      assert View().cache == if k in s.cache then s.cache[k := s.cache[k][p := now]] else s.cache;
      Adds(validity, s, k, p);
    }

    /** Reads the records of a key one by one, deleting those that are expired or unreadable. */
    method LoadProviderSet(k: Key) returns (out: ProviderSet)
      modifies this`store
      ensures fresh(out) && out.Valid()
      ensures store == Purged(old(store), k, now, validity)
      ensures Mirrors(out.times, store, k)
    {
      out := new ProviderSet();
      ghost var before := store;
      var rest := set x | x in store && x.0 == k;
      while rest != {}
        invariant out.Valid() && fresh(out)
        invariant Loading(before, store, out.times, rest, k, now, validity)
        decreases |rest|
      {
        var x :| x in rest;
        LoadingOne(before, store, out.times, rest, k, now, validity, x);
        if Expired(store[x], now, validity) {
          store := store - {x};
        } else {
          out.SetVal(x.1, store[x].time);
        }
        rest := rest - {x};
      }
      Loaded(before, store, out.times, k, now, validity);
    }

    method GetProvidersForKey(k: Key) returns (provs: seq<PeerId>)
      requires Valid()
      modifies this
      ensures Valid() && NoDup(provs)
      ensures Step(validity, old(View()), Get(k, Elems(provs)), View())
    {
      hide Step;
      ghost var s := View();
      if k in cache {
        GetsCached(validity, s, k);
        return cache[k].providers;
      }
      var pset := LoadProviderSet(k);
      provs := pset.providers;
      if pset.providers != [] {
        assert pset.providers[0] in Elems(pset.providers);
        cache := cache[k := pset];
        assert View().cache == s.cache[k := pset.times];
      } else {
        assert Elems(pset.providers) == {};
        assert pset.times == map[];
        assert View().cache == s.cache;
      }
      GetsLoaded(validity, s, View(), k, pset.times);
    }

    method Forget(k: Key)
      requires Valid()
      modifies this
      ensures Valid() && Step(validity, old(View()), Evict(k), View())
    {
      ghost var s := View();
      cache := cache - {k};
      assert View().cache == s.cache - {k};
    }

    method OnTimer(time: int)
      requires Valid() && time <= now && gc.None?
      modifies this
      ensures Valid() && Step(validity, old(View()), CollectionStarts(time), View())
    {
      cache := map[];
      gc := Some(Collection(time, {}, set x | x in store :: (x, store[x])));
      assert View().cache == map[];
    }

    method OnQueryResult(x: Name, r: Record)
      requires Valid() && gc.Some? && (x, r) in gc.value.seen
      modifies this
      ensures Valid() && Step(validity, old(View()), CollectionVisits(x, r), View())
    {
      ghost var s := View();
      if x in gc.value.skip {
        return;
      }
      if Expired(r, gc.value.time, validity) {
        store := store - {x};
      }
      assert View().cache == s.cache;
    }

    method OnQueryEnd()
      requires Valid() && gc.Some?
      modifies this
      ensures Valid() && Step(validity, old(View()), CollectionEnds, View())
    {
      ghost var s := View();
      gc := None;
      assert View().cache == s.cache;
    }
  }

  lemma Adds(validity: nat, s: State, k: Key, p: PeerId)
    ensures Step(validity, s, Add(k, p), AddProvider(s, k, p))
    ensures AddProvider(s, k, p).store == s.store[(k, p) := At(s.now)] && AddProvider(s, k, p).now == s.now
    ensures AddProvider(s, k, p).cache == if k in s.cache then s.cache[k := s.cache[k][p := s.now]] else s.cache
    ensures AddProvider(s, k, p).gc ==
            if s.gc.None? then None
            else Some(s.gc.value.(skip := s.gc.value.skip + {(k, p)}, seen := s.gc.value.seen + {((k, p), At(s.now))}))
  {
  }

  lemma GetsCached(validity: nat, s: State, k: Key)
    requires k in s.cache
    ensures Step(validity, s, Get(k, s.cache[k].Keys), s)
  {
  }

  lemma GetsLoaded(validity: nat, s: State, s': State, k: Key, m: map<PeerId, int>)
    requires k !in s.cache && s' == State(Purged(s.store, k, s.now, validity), s'.cache, s.now, s.gc)
    requires Mirrors(m, s'.store, k) && s'.cache == if m == map[] then s.cache else s.cache[k := m]
    ensures Step(validity, s, Get(k, m.Keys), s')
  {
  }

  /** Part of the records of the key have been read. */
  ghost predicate Loading(before: map<Name, Record>, store: map<Name, Record>, m: map<PeerId, int>, rest: set<Name>,
                          k: Key, now: int, validity: nat) {
    && (forall x :: x in rest ==> x.0 == k && x in store)
    && (forall x :: x in store <==> x in before && (x.0 == k && x !in rest ==> !Expired(before[x], now, validity)))
    && (forall x :: x in store ==> store[x] == before[x])
    && (forall p :: p in m <==> (k, p) in store && (k, p) !in rest)
    && (forall p :: p in m ==> store[(k, p)] == At(m[p]))
  }

  lemma LoadingOne(before: map<Name, Record>, store: map<Name, Record>, m: map<PeerId, int>, rest: set<Name>,
                   k: Key, now: int, validity: nat, x: Name)
    requires Loading(before, store, m, rest, k, now, validity) && x in rest
    ensures x in store
    ensures if Expired(store[x], now, validity) then Loading(before, store - {x}, m, rest - {x}, k, now, validity)
            else Loading(before, store, m[x.1 := store[x].time], rest - {x}, k, now, validity)
  {
  }

  lemma Loaded(before: map<Name, Record>, store: map<Name, Record>, m: map<PeerId, int>, k: Key, now: int,
               validity: nat)
    requires Loading(before, store, m, {}, k, now, validity)
    ensures store == Purged(before, k, now, validity) && Mirrors(m, store, k)
  {
  }
}

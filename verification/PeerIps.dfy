/** Peer IPs, indexed by peer in the retained stats and by IP (go-libp2p-blossomsub/score.go). */
module PeerIps {
  import opened Identifiers
  import opened PairIndex

  type Ip(==, !new)

  /** What is retained of a peer, as far as its IPs are concerned. */
  datatype Stats = Stats(connected: bool, expire: int, ips: seq<Ip>)

  ghost function Listed(stats: map<PeerId, Stats>): set<(Ip, PeerId)> {
    set p, ip | p in stats && ip in stats[p].ips :: (ip, p)
  }

  /** The pairs of one peer. */
  ghost function Of(p: PeerId, ips: seq<Ip>): set<(Ip, PeerId)> {
    set ip | ip in ips :: (ip, p)
  }

  lemma OfNext(p: PeerId, ips: seq<Ip>, i: nat)
    requires i < |ips|
    ensures Of(p, ips[..i + 1]) == Of(p, ips[..i]) + {(ips[i], p)}
  {
    assert ips[..i + 1] == ips[..i] + [ips[i]];
  }

  /** Replacing the IPs of a peer replaces its pairs. */
  lemma ListedUpdate(stats: map<PeerId, Stats>, p: PeerId, s: Stats)
    ensures var old_ := if p in stats then stats[p].ips else [];
            Listed(stats[p := s]) == Listed(stats) - Of(p, old_) + Of(p, s.ips)
  {
  }

  lemma ListedRemove(stats: map<PeerId, Stats>, p: PeerId)
    requires p in stats
    ensures Listed(stats - {p}) == Listed(stats) - Of(p, stats[p].ips)
  {
  }

  class IpTracker {
    var stats: map<PeerId, Stats>
    var peerIPs: map<Ip, set<PeerId>>

    /** A peer is listed under an IP exactly if that IP is in its retained stats. */
    ghost predicate Valid()
      reads this
    {
      Indexes(peerIPs, Listed(stats))
    }

    constructor ()
      ensures Valid() && stats == map[]
    {
      stats, peerIPs := map[], map[];
    }

    /** Adds tracking for the new IPs and removes it from the obsolete ones. */
    method SetIps(p: PeerId, newips: seq<Ip>, oldips: seq<Ip>, ghost rel: set<(Ip, PeerId)>)
      requires Indexes(peerIPs, rel) && Of(p, oldips) <= rel
      modifies this`peerIPs
      ensures Indexes(peerIPs, rel - Of(p, oldips) + Of(p, newips))
    {
      hide Indexes, Insert, Delete, Of;
      ghost var r := rel;
      OfNone(p, newips[..0]);
      OfNone(p, oldips[..0]);
      for i := 0 to |newips|
        invariant Indexes(peerIPs, r) && r == rel + Of(p, newips[..i])
      {
        OfNext(p, newips, i);
        OfHas(p, oldips, newips[i]);
        if newips[i] !in oldips {
          InsertIndexes(peerIPs, r, newips[i], p);
          peerIPs := Insert(peerIPs, newips[i], p);
        } else {
          assert r + {(newips[i], p)} == r;
        }
        r := r + {(newips[i], p)};
      }
      assert newips[..|newips|] == newips;
      for i := 0 to |oldips|
        invariant Indexes(peerIPs, r) && r == rel + Of(p, newips) - (Of(p, oldips[..i]) - Of(p, newips))
      {
        OfNext(p, oldips, i);
        OfHas(p, newips, oldips[i]);
        if oldips[i] !in newips {
          DeleteIndexes(peerIPs, r, oldips[i], p);
          peerIPs := Delete(peerIPs, oldips[i], p);
          r := r - {(oldips[i], p)};
        }
      }
      assert oldips[..|oldips|] == oldips;
      assert r == rel - Of(p, oldips) + Of(p, newips);
    }

    method RemoveIps(p: PeerId, ips: seq<Ip>, ghost rel: set<(Ip, PeerId)>)
      requires Indexes(peerIPs, rel)
      modifies this`peerIPs
      ensures Indexes(peerIPs, rel - Of(p, ips))
    {
      hide Indexes, Delete, Of;
      OfNone(p, ips[..0]);
      ghost var r := rel;
      for i := 0 to |ips|
        invariant Indexes(peerIPs, r) && r == rel - Of(p, ips[..i])
      {
        OfNext(p, ips, i);
        DeleteIndexes(peerIPs, r, ips[i], p);
        peerIPs := Delete(peerIPs, ips[i], p);
        r := r - {(ips[i], p)};
      }
      assert ips[..|ips|] == ips;
    }

    method AddPeer(p: PeerId, ips: seq<Ip>)
      requires Valid()
      modifies this
      ensures Valid() && stats == old(stats)[p := Stats(true, if p in old(stats) then old(stats)[p].expire else 0, ips)]
    {
      hide Indexes, Listed, Of;
      var s := if p in stats then stats[p] else Stats(true, 0, []);
      OldIps(stats, p);
      SetIps(p, ips, s.ips, Listed(stats));
      ListedUpdate(stats, p, Stats(true, s.expire, ips));
      stats := stats[p := Stats(true, s.expire, ips)];
    }

    /** A peer with a positive score is forgotten, any other is retained for a while. */
    method RemovePeer(p: PeerId, score: real, expire: int)
      requires Valid()
      modifies this
      ensures Valid()
      ensures stats == if p !in old(stats) then old(stats) else if score > 0.0 then old(stats) - {p}
                       else old(stats)[p := Stats(false, expire, old(stats)[p].ips)]
    {
      hide Indexes, Listed, Of;
      if p !in stats {
        return;
      }
      if score > 0.0 {
        RemoveIps(p, stats[p].ips, Listed(stats));
        ListedRemove(stats, p);
        stats := stats - {p};
        return;
      }
      SamePairs(stats, p, Stats(false, expire, stats[p].ips));
      stats := stats[p := Stats(false, expire, stats[p].ips)];
    }

    /** Retained stats are thrown away once their time is over. */
    method RefreshScores(now: int)
      requires Valid()
      modifies this
      ensures Valid()
      ensures stats == map p | p in old(stats) && (old(stats)[p].connected || now <= old(stats)[p].expire)
                         :: old(stats)[p]
    {
      hide Indexes, Listed, Of;
      var rest := stats.Keys;
      while rest != {}
        invariant Valid() && rest <= stats.Keys <= old(stats).Keys
        invariant forall p :: p in stats ==> stats[p] == old(stats)[p]
        invariant forall p :: p in old(stats) && p !in rest ==>
                  (p in stats <==> old(stats)[p].connected || now <= old(stats)[p].expire)
        decreases |rest|
      {
        var p :| p in rest;
        if !stats[p].connected && now > stats[p].expire {
          RemoveIps(p, stats[p].ips, Listed(stats));
          ListedRemove(stats, p);
          stats := stats - {p};
        }
        rest := rest - {p};
      }
    }

    method RefreshIps(getIps: PeerId -> seq<Ip>)
      requires Valid()
      modifies this
      ensures Valid() && stats.Keys == old(stats).Keys
      ensures forall p :: p in stats ==>
                stats[p] == if old(stats)[p].connected then old(stats)[p].(ips := getIps(p)) else old(stats)[p]
    {
      hide Indexes, Listed, Of;
      var rest := stats.Keys;
      while rest != {}
        invariant Valid() && rest <= stats.Keys == old(stats).Keys
        invariant forall p :: p in rest ==> stats[p] == old(stats)[p]
        invariant forall p :: p in stats && p !in rest ==>
                    stats[p] == if old(stats)[p].connected then old(stats)[p].(ips := getIps(p)) else old(stats)[p]
        decreases |rest|
      {
        var p :| p in rest;
        if stats[p].connected {
          var ips := getIps(p);
          OldIps(stats, p);
          SetIps(p, ips, stats[p].ips, Listed(stats));
          ListedUpdate(stats, p, stats[p].(ips := ips));
          stats := stats[p := stats[p].(ips := ips)];
        }
        rest := rest - {p};
      }
    }
  }

  lemma OfNone(p: PeerId, ips: seq<Ip>)
    requires ips == []
    ensures Of(p, ips) == {}
  {
  }

  lemma OfHas(p: PeerId, ips: seq<Ip>, ip: Ip)
    ensures (ip, p) in Of(p, ips) <==> ip in ips
  {
  }

  lemma OldIps(stats: map<PeerId, Stats>, p: PeerId)
    ensures Of(p, if p in stats then stats[p].ips else []) <= Listed(stats)
  {
  }

  lemma SamePairs(stats: map<PeerId, Stats>, p: PeerId, s: Stats)
    requires p in stats && s.ips == stats[p].ips
    ensures Listed(stats[p := s]) == Listed(stats)
  {
    hide Listed, Of;
    ListedUpdate(stats, p, s);
    OldIps(stats, p);
  }
}

/** Choosing mesh candidates (go-libp2p-blossomsub/blossomsub.go, getPeers). */
module PeerSelection {
  import opened Identifiers
  import opened Options
  import opened SeqFacts
  import opened Bitmasks

  /** What the router reads from the rest of the node: direct peers, peers with an outbound
      connection, the subscribers of every bitmask, the peers that speak the mesh protocol, and
      the application's peer filter. */
  datatype Env = Env(
    direct: set<PeerId>, outbound: set<PeerId>, subscribers: map<Bitmask, set<PeerId>>,
    meshCapable: set<PeerId>, allowed: (PeerId, Bitmask) -> bool)

  function Eligible(e: Env, slice: Bitmask, ok: PeerId -> bool): (ps: set<PeerId>)
    ensures forall p :: p in ps ==> ok(p) && p in e.meshCapable && e.allowed(p, slice)
    ensures forall p :: p in ps ==> slice in e.subscribers && p in e.subscribers[slice]
  {
    if slice !in e.subscribers then {}
    else set p | p in e.subscribers[slice] && p in e.meshCapable && ok(p) && e.allowed(p, slice)
  }

  /** The candidate set after visiting the slices in order. None is an early return of nil: a slice
      nobody subscribes to, or an intersection that became empty. While the accumulated set is
      empty the next slice starts it afresh. */
  function Accumulate(e: Env, slices: seq<Bitmask>, ok: PeerId -> bool): (acc: Option<set<PeerId>>) {
    if slices == [] then Some({})
    else
      var slice := slices[|slices| - 1];
      match Accumulate(e, slices[..|slices| - 1], ok)
      case None => None
      case Some(acc) =>
        var ps := Eligible(e, slice, ok);
        if slice !in e.subscribers then None
        else if acc == {} then Some(ps)
        else if acc * ps == {} then None
        else Some(acc * ps)
  }

  function Pool(e: Env, slices: seq<Bitmask>, ok: PeerId -> bool): (ps: set<PeerId>) {
    match Accumulate(e, slices, ok)
    case None => {}
    case Some(acc) => acc
  }

  /** `sel` is what is left of the pool after truncating to `count`, where zero means no limit. */
  ghost predicate IsSelection(sel: set<PeerId>, pool: set<PeerId>, count: nat) {
    sel <= pool && |sel| == if count > 0 && |pool| > count then count else |pool|
  }

  /** Everybody in the pool passed the caller's filter and speaks the mesh protocol. */
  lemma PoolFiltered(e: Env, slices: seq<Bitmask>, ok: PeerId -> bool)
    ensures forall p :: p in Pool(e, slices, ok) ==> ok(p) && p in e.meshCapable
  {
    if slices != [] {
      var ps := Eligible(e, slices[|slices| - 1], ok);
      assert Pool(e, slices, ok) <= ps;
    }
  }

  /** For a bitmask that is a single slice the pool is exactly its eligible subscribers. */
  lemma PoolOfSlice(e: Env, slice: Bitmask, ok: PeerId -> bool)
    ensures Pool(e, [slice], ok) == Eligible(e, slice, ok)
  {
    assert [slice][..0] == [];
    assert Accumulate(e, [slice][..0], ok) == Some({});
  }

  /** The peers eligible for every one of the slices. */
  ghost function Common(e: Env, slices: seq<Bitmask>, ok: PeerId -> bool): set<PeerId>
    requires slices != []
  {
    set p | p in Eligible(e, slices[0], ok) && forall i :: 0 <= i < |slices| ==> p in Eligible(e, slices[i], ok)
  }

  lemma {:induction false} AccumulateEmpty(e: Env, slices: seq<Bitmask>, ok: PeerId -> bool)
    requires forall i :: 0 <= i < |slices| ==> slices[i] in e.subscribers && Eligible(e, slices[i], ok) == {}
    ensures Accumulate(e, slices, ok) == Some({})
  {
    if slices != [] {
      AccumulateEmpty(e, slices[..|slices| - 1], ok);
    }
  }

  lemma {:induction false} AccumulateCommon(e: Env, slices: seq<Bitmask>, ok: PeerId -> bool, j: nat)
    requires j < |slices| && forall i :: 0 <= i < |slices| ==> slices[i] in e.subscribers
    requires forall i :: 0 <= i < j ==> Eligible(e, slices[i], ok) == {}
    requires Eligible(e, slices[j], ok) != {}
    ensures Accumulate(e, slices, ok) ==
              if Common(e, slices[j..], ok) == {} then None else Some(Common(e, slices[j..], ok))
    decreases |slices|
  {
    var init, slice := slices[..|slices| - 1], slices[|slices| - 1];
    if j == |init| {
      AccumulateEmpty(e, init, ok);
      assert slices[j..] == [slice];
      assert Common(e, [slice], ok) == Eligible(e, slice, ok);
    } else {
      AccumulateCommon(e, init, ok, j);
      CommonOneMore(e, init[j..], slice, ok);
      assert slices[j..] == init[j..] + [slice];
    }
  }

  lemma CommonOneMore(e: Env, slices: seq<Bitmask>, slice: Bitmask, ok: PeerId -> bool)
    requires slices != []
    ensures Common(e, slices + [slice], ok) == Common(e, slices, ok) * Eligible(e, slice, ok)
  {
    var longer := slices + [slice];
    assert longer[|slices|] == slice;
    assert forall i :: 0 <= i < |slices| ==> longer[i] == slices[i];
  }

  lemma PoolFrom(e: Env, slices: seq<Bitmask>, ok: PeerId -> bool, j: nat)
    requires j < |slices| && forall i :: 0 <= i < |slices| ==> slices[i] in e.subscribers
    requires forall i :: 0 <= i < j ==> Eligible(e, slices[i], ok) == {}
    requires Eligible(e, slices[j], ok) != {}
    ensures Pool(e, slices, ok) == Common(e, slices[j..], ok)
    ensures Pool(e, slices, ok) == Common(e, slices, ok) <==> j == 0 || Common(e, slices[j..], ok) == {}
  {
    AccumulateCommon(e, slices, ok, j);
    if j == 0 {
      assert slices[0..] == slices;
    } else {
      assert Eligible(e, slices[0], ok) == {};
    }
  }

  /** The first slice with an eligible peer, or the number of slices. */
  ghost function FirstEligible(e: Env, slices: seq<Bitmask>, ok: PeerId -> bool): (j: nat)
    ensures j <= |slices|
    ensures forall i :: 0 <= i < j ==> Eligible(e, slices[i], ok) == {}
    ensures j < |slices| ==> Eligible(e, slices[j], ok) != {}
  {
    if slices == [] then 0
    else
      var j := FirstEligible(e, slices[..|slices| - 1], ok);
      if j < |slices| - 1 || Eligible(e, slices[|slices| - 1], ok) != {} then j else j + 1
  }

  ghost predicate AllSubscribed(e: Env, slices: seq<Bitmask>) {
    forall i :: 0 <= i < |slices| ==> slices[i] in e.subscribers
  }

  lemma {:induction false} AccumulateUnsubscribed(e: Env, slices: seq<Bitmask>, ok: PeerId -> bool)
    requires !AllSubscribed(e, slices)
    ensures Accumulate(e, slices, ok) == None
  {
    var init := slices[..|slices| - 1];
    if !AllSubscribed(e, init) {
      AccumulateUnsubscribed(e, init, ok);
    } else {
      assert slices[|slices| - 1] !in e.subscribers;
    }
  }

  /** What the restarting accumulator computes, for every list of slices: nobody if some slice has no
      subscribers, otherwise the peers eligible for all slices from the first one with an eligible
      peer on. So it is the intersection over all the slices if and only if some slice has no
      subscribers, or that first slice is slice 0, or there is none, or nobody is eligible for all
      the slices from it on. */
  lemma PoolRestarts(e: Env, slices: seq<Bitmask>, ok: PeerId -> bool)
    requires slices != []
    ensures var j := FirstEligible(e, slices, ok);
            && Pool(e, slices, ok) ==
               (if AllSubscribed(e, slices) && j < |slices| then Common(e, slices[j..], ok) else {})
            && (Pool(e, slices, ok) == Common(e, slices, ok) <==>
                  !AllSubscribed(e, slices) || j == 0 || j == |slices| || Common(e, slices[j..], ok) == {})
  {
    hide Accumulate;
    var j := FirstEligible(e, slices, ok);
    if !AllSubscribed(e, slices) {
      AccumulateUnsubscribed(e, slices, ok);
      var i :| 0 <= i < |slices| && slices[i] !in e.subscribers;
      assert Eligible(e, slices[i], ok) == {};
      assert Common(e, slices, ok) == {};
    } else if j == |slices| {
      AccumulateEmpty(e, slices, ok);
      assert Common(e, slices, ok) == {};
    } else {
      PoolFrom(e, slices, ok, j);
    }
  }

  /** A peer in the pool that is not eligible for every slice: nobody is eligible for a, p is for b. */
  lemma PoolIsNotTheIntersection(a: Bitmask, b: Bitmask, p: PeerId)
    requires a != b
    ensures var e := Env({}, {}, map[a := {}, b := {p}], {p}, (q, c) => true);
            Pool(e, [a, b], q => true) == {p} && Common(e, [a, b], q => true) == {}
  {
    var e, ok := Env({}, {}, map[a := {}, b := {p}], {p}, (q: PeerId, c: Bitmask) => true), (q: PeerId) => true;
    assert Eligible(e, a, ok) == {} && Eligible(e, b, ok) == {p};
    PoolFrom(e, [a, b], ok, 1);
    assert [a, b][1..] == [b];
    assert Common(e, [b], ok) == {p};
  }

  /** A peer that speaks the mesh protocol and subscribes to every slice of a bitmask, and is let through. */
  ghost predicate Available(e: Env, b: Bitmask, p: PeerId) {
    && p in e.meshCapable
    && forall i :: 0 <= i < |Slices(b)| ==>
         Slices(b)[i] in e.subscribers && p in e.subscribers[Slices(b)[i]] && e.allowed(p, Slices(b)[i])
  }

  /** Whoever is available and passes the caller's filter is in the pool. */
  lemma AvailableInPool(e: Env, b: Bitmask, ok: PeerId -> bool, p: PeerId)
    requires Available(e, b, p) && ok(p)
    ensures p in Pool(e, Slices(b), ok)
  {
    SlicesSound(b);
    var slices := Slices(b);
    hide Slices, Pool;
    assert forall i :: 0 <= i < |slices| ==> p in Eligible(e, slices[i], ok);
    assert p in Common(e, slices, ok);
    PoolRestarts(e, slices, ok);
  }

  /** A selection that is not full, or has no limit, leaves no such peer out. */
  lemma NobodyPassedOver(e: Env, b: Bitmask, ok: PeerId -> bool, sel: set<PeerId>, count: nat, p: PeerId)
    requires IsSelection(sel, Pool(e, Slices(b), ok), count) && (count == 0 || |sel| < count)
    requires Available(e, b, p) && ok(p)
    ensures p in sel
  {
    AvailableInPool(e, b, ok, p);
    hide Pool, Slices;
    SubsetCard(sel, Pool(e, Slices(b), ok));
  }

  /** The result is a random listing of the pool, truncated to `count`. */
  method GetPeers(e: Env, bitmask: Bitmask, count: nat, ok: PeerId -> bool) returns (result: seq<PeerId>)
    ensures NoDup(result)
    ensures IsSelection(Elems(result), Pool(e, Slices(bitmask), ok), count)
    ensures forall p :: p in result ==> ok(p) && p in e.meshCapable
  {
    var slices := SliceBitmask(bitmask);
    PoolFiltered(e, slices, ok);
    var pool: set<PeerId> := {};
    for i := 0 to |slices|
      invariant Accumulate(e, slices[..i], ok) == Some(pool)
    {
      assert slices[..i + 1][..i] == slices[..i];
      var next := Visit(e, slices[i], ok, pool);
      assert Accumulate(e, slices[..i + 1], ok) == next;
      if next.None? {
        AccumulateStays(e, slices, ok, i + 1);
        return [];
      }
      pool := next.value;
    }
    assert slices[..|slices|] == slices;
    result := Pick(pool, count);
  }

  lemma {:induction false} AccumulateStays(e: Env, slices: seq<Bitmask>, ok: PeerId -> bool, i: nat)
    requires i <= |slices| && Accumulate(e, slices[..i], ok).None?
    ensures Accumulate(e, slices, ok).None?
    decreases |slices| - i
  {
    if i == |slices| {
      assert slices[..i] == slices;
    } else {
      assert slices[..i + 1][..i] == slices[..i];
      AccumulateStays(e, slices, ok, i + 1);
    }
  }

  method Visit(e: Env, slice: Bitmask, ok: PeerId -> bool, acc: set<PeerId>) returns (next: Option<set<PeerId>>)
    ensures next == if slice !in e.subscribers then None
                    else if acc == {} then Some(Eligible(e, slice, ok))
                    else if acc * Eligible(e, slice, ok) == {} then None
                    else Some(acc * Eligible(e, slice, ok))
  {
    if slice !in e.subscribers {
      return None;
    }
    var peers, rest := {}, e.subscribers[slice];
    while rest != {}
      invariant rest <= e.subscribers[slice]
      invariant peers == Eligible(e, slice, ok) - rest
      decreases |rest|
    {
      var p :| p in rest;
      if p in e.meshCapable && ok(p) && e.allowed(p, slice) {
        peers := peers + {p};
      }
      rest := rest - {p};
    }
    assert peers == Eligible(e, slice, ok);
    if acc == {} {
      return Some(peers);
    }
    var common := set p | p in peers && p in acc;
    assert common == acc * peers;
    next := if common == {} then None else Some(common);
  }

  method Pick(pool: set<PeerId>, count: nat) returns (result: seq<PeerId>)
    ensures NoDup(result)
    ensures IsSelection(Elems(result), pool, count)
  {
    result := [];
    var rest := pool;
    while rest != {} && (count == 0 || |result| < count)
      invariant NoDup(result) && Elems(result) == pool - rest && rest <= pool
      invariant |result| + |rest| == |pool|
      invariant count > 0 ==> |result| <= count
      decreases |rest|
    {
      var p :| p in rest;
      assert p !in Elems(result);
      Snoc(result, p);
      result := result + [p];
      rest := rest - {p};
    }
    ElemsCard(result);
  }
}

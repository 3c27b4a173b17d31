/** The peer set of one Kademlia lookup (go-libp2p-kad-dht/qpeerset). */
module QueryPeersets {
  import opened Identifiers
  import opened SeqFacts
  import opened Sorting

  datatype PeerState = Heard | Waiting | Queried | Unreachable

  datatype Entry = Entry(id: PeerId, distance: nat, state: PeerState, referredBy: PeerId)

  /** What a lookup knows: every peer it has heard of, with its current state. */
  type Known = map<PeerId, PeerState>

  ghost function InState(known: Known, states: set<PeerState>): set<PeerId> {
    set p | p in known && known[p] in states
  }

  ghost predicate DistanceSorted(ps: seq<PeerId>, distance: PeerId -> nat) {
    forall i, j :: 0 <= i < j < |ps| ==> distance(ps[i]) <= distance(ps[j])
  }

  /** `ps` lists, nearest first, the `n` nearest of the peers whose state is in `states`,
      or all of them if there are fewer; peers at equal distance may come in any order. */
  ghost predicate IsClosest(ps: seq<PeerId>, known: Known, distance: PeerId -> nat, n: nat, states: set<PeerState>) {
    && NoDup(ps)
    && Elems(ps) <= InState(known, states)
    && |ps| <= n
    && DistanceSorted(ps, distance)
    && forall p, q :: p in InState(known, states) && p !in ps ==>
         |ps| == n && (q in ps ==> distance(q) <= distance(p))
  }

  lemma ClosestWhenAllFit(ps: seq<PeerId>, known: Known, distance: PeerId -> nat, n: nat, states: set<PeerState>)
    requires IsClosest(ps, known, distance, n, states)
    requires |InState(known, states)| <= n
    ensures Elems(ps) == InState(known, states)
    ensures |ps| == |InState(known, states)|
  {
    ElemsCard(ps);
    var all := InState(known, states);
    SubsetCard(Elems(ps), all);
    if p :| p in all && p !in ps {
      assert |ps| == n;
      assert Elems(ps) == all;
      assert p in Elems(ps);
    }
  }

  ghost predicate Injective(distance: PeerId -> nat) {
    forall p, q :: distance(p) == distance(q) ==> p == q
  }

  /** If no two peers are at the same distance, two lists of the closest peers have the same members. */
  lemma ClosestAgree(ps: seq<PeerId>, qs: seq<PeerId>, known: Known, distance: PeerId -> nat, n: nat,
                     states: set<PeerState>)
    requires Injective(distance)
    requires IsClosest(ps, known, distance, n, states) && IsClosest(qs, known, distance, n, states)
    ensures forall p :: p in ps ==> p in qs
  {
    forall p | p in ps ensures p in qs {
      if p !in qs {
        MissingMeansFull(qs, known, distance, n, states, ps, p);
        var q := Instead(ps, qs, p);
        SameDistance(ps, qs, known, distance, n, states, p, q);
      }
    }
  }

  lemma MissingMeansFull(qs: seq<PeerId>, known: Known, distance: PeerId -> nat, n: nat, states: set<PeerState>,
                         ps: seq<PeerId>, p: PeerId)
    requires IsClosest(ps, known, distance, n, states) && IsClosest(qs, known, distance, n, states)
    requires p in ps && p !in qs
    ensures |ps| <= |qs|
  {
    hide InState, DistanceSorted, NoDup;
    assert p in Elems(ps);
  }

  lemma SameDistance(ps: seq<PeerId>, qs: seq<PeerId>, known: Known, distance: PeerId -> nat, n: nat,
                     states: set<PeerState>, p: PeerId, q: PeerId)
    requires IsClosest(ps, known, distance, n, states) && IsClosest(qs, known, distance, n, states)
    requires p in ps && p !in qs && q in qs && q !in ps
    ensures distance(p) == distance(q)
  {
    hide InState, DistanceSorted, NoDup;
    assert p in Elems(ps) && q in Elems(qs);
  }

  lemma Instead(ps: seq<PeerId>, qs: seq<PeerId>, p: PeerId) returns (q: PeerId)
    requires NoDup(ps) && NoDup(qs) && p in ps && p !in qs && |qs| >= |ps|
    ensures q in qs && q !in ps
  {
    ElemsCard(ps);
    ElemsCard(qs);
    if Elems(qs) <= Elems(ps) {
      SubsetCard(Elems(qs), Elems(ps) - {p});
      assert false;
    }
    q :| q in Elems(qs) && q !in Elems(ps);
  }

  /** Every known set has a list of its closest peers: the definition is never vacuous. */
  lemma {:induction false} ClosestExists(known: Known, distance: PeerId -> nat, n: nat, states: set<PeerState>)
    ensures exists ps :: IsClosest(ps, known, distance, n, states)
    decreases n
  {
    if n == 0 {
      assert IsClosest([], known, distance, n, states);
    } else {
      ClosestExists(known, distance, n - 1, states);
      var ps :| IsClosest(ps, known, distance, n - 1, states);
      hide IsClosest;
      OneMoreClosest(ps, known, distance, n, states);
    }
  }

  lemma OneMoreClosest(ps: seq<PeerId>, known: Known, distance: PeerId -> nat, n: nat, states: set<PeerState>)
    requires n > 0 && IsClosest(ps, known, distance, n - 1, states)
    ensures exists qs :: IsClosest(qs, known, distance, n, states)
  {
    hide InState;
    var rest := InState(known, states) - Elems(ps);
    if rest == {} {
      forall p | p in InState(known, states) ensures p in ps {
        assert p !in rest;
      }
      assert IsClosest(ps, known, distance, n, states);
    } else {
      var p := Nearest(rest, distance);
      NextClosest(ps, known, distance, n, states, p);
    }
  }

  lemma NextClosest(ps: seq<PeerId>, known: Known, distance: PeerId -> nat, n: nat, states: set<PeerState>, p: PeerId)
    requires n > 0 && IsClosest(ps, known, distance, n - 1, states)
    requires p in InState(known, states) && p !in ps
    requires forall q :: q in InState(known, states) && q !in ps ==> distance(p) <= distance(q)
    ensures IsClosest(ps + [p], known, distance, n, states)
  {
    hide InState;
  }

  lemma {:induction false} Nearest(s: set<PeerId>, distance: PeerId -> nat) returns (p: PeerId)
    requires s != {}
    ensures p in s
    ensures forall q :: q in s ==> distance(p) <= distance(q)
    decreases |s|
  {
    p :| p in s;
    if s != {p} {
      var q := Nearest(s - {p}, distance);
      p := if distance(q) < distance(p) then q else p;
    }
  }

  ghost predicate DistinctIds(all: seq<Entry>) {
    forall i, j :: 0 <= i < j < |all| ==> all[i].id != all[j].id
  }

  function Closer(): (Entry, Entry) -> bool {
    (a: Entry, b: Entry) => a.distance <= b.distance
  }

  predicate SortedEntries(all: seq<Entry>) {
    SortedBy(all, Closer())
  }

  ghost function StateMap(all: seq<Entry>): Known {
    if all == [] then map[]
    else
      var e := all[|all| - 1];
      StateMap(all[..|all| - 1])[e.id := e.state]
  }

  lemma {:induction false} StateMapLookup(all: seq<Entry>)
    requires DistinctIds(all)
    ensures forall i :: 0 <= i < |all| ==> all[i].id in StateMap(all) && StateMap(all)[all[i].id] == all[i].state
    ensures forall p :: p in StateMap(all) ==> exists i :: 0 <= i < |all| && all[i].id == p
  {
    if all != [] {
      var init := all[..|all| - 1];
      StateMapLookup(init);
      forall p | p in StateMap(all) ensures exists i :: 0 <= i < |all| && all[i].id == p {
        if p in StateMap(init) {
          var i :| 0 <= i < |init| && init[i].id == p;
          assert all[i].id == p;
        } else {
          assert all[|all| - 1].id == p;
        }
      }
    }
  }

  /** The ids of the entries whose state is in `states`, in list order. */
  function Select(all: seq<Entry>, states: set<PeerState>): (ids: seq<PeerId>) {
    if all == [] then []
    else
      var e := all[|all| - 1];
      Select(all[..|all| - 1], states) + if e.state in states then [e.id] else []
  }

  lemma {:induction false} SelectSound(all: seq<Entry>, states: set<PeerState>)
    requires DistinctIds(all)
    ensures NoDup(Select(all, states))
    ensures Elems(Select(all, states)) == InState(StateMap(all), states)
  {
    if all != [] {
      var init, e := all[..|all| - 1], all[|all| - 1];
      SelectSound(init, states);
      LastIdIsNew(all);
      var ids := Select(init, states);
      assert e.id !in Elems(ids);
      assert Elems(Select(all, states)) == Elems(ids) + if e.state in states then {e.id} else {};
    }
  }

  lemma LastIdIsNew(all: seq<Entry>)
    requires DistinctIds(all) && all != []
    ensures all[|all| - 1].id !in StateMap(all[..|all| - 1])
  {
    StateMapLookup(all[..|all| - 1]);
  }

  lemma SelectBounded(all: seq<Entry>, states: set<PeerState>)
    requires DistinctIds(all)
    ensures |InState(StateMap(all), states)| <= |all|
  {
    SelectSound(all, states);
    ElemsCard(Select(all, states));
    SelectLength(all, states);
  }

  lemma {:induction false} SelectLength(all: seq<Entry>, states: set<PeerState>)
    ensures |Select(all, states)| <= |all|
  {
    if all != [] {
      SelectLength(all[..|all| - 1], states);
    }
  }

  lemma {:induction false} SelectSorted(all: seq<Entry>, states: set<PeerState>, distance: PeerId -> nat)
    requires SortedEntries(all)
    requires forall i :: 0 <= i < |all| ==> all[i].distance == distance(all[i].id)
    ensures DistanceSorted(Select(all, states), distance)
    ensures all != [] ==> forall p :: p in Select(all, states) ==> distance(p) <= distance(all[|all| - 1].id)
  {
    if all != [] {
      var init := all[..|all| - 1];
      SelectSorted(init, states, distance);
    }
  }

  /** Cutting the selection of a sorted entry list at `n` gives the `n` closest peers. */
  lemma SelectPrefixIsClosest(all: seq<Entry>, states: set<PeerState>, distance: PeerId -> nat, n: nat)
    requires DistinctIds(all) && SortedEntries(all)
    requires forall i :: 0 <= i < |all| ==> all[i].distance == distance(all[i].id)
    ensures var ids := Select(all, states);
            IsClosest(if |ids| >= n then ids[..n] else ids, StateMap(all), distance, n, states)
  {
    SelectSound(all, states);
    SelectSorted(all, states, distance);
    var ids := Select(all, states);
    var ps := if |ids| >= n then ids[..n] else ids;
    forall p, q | p in InState(StateMap(all), states) && p !in ps
      ensures |ps| == n && (q in ps ==> distance(q) <= distance(p))
    {
      assert p in Elems(ids);
      var i :| 0 <= i < |ids| && ids[i] == p;
      if q in ps {
        var j :| 0 <= j < |ps| && ps[j] == q;
        assert ids[j] == q;
      }
    }
    forall p | p in ps ensures p in InState(StateMap(all), states) {
      assert p in Elems(ids);
    }
  }

  /** Sorting only permutes: ids stay distinct and every peer keeps its state. */
  lemma SortKeepsStates(sorted: seq<Entry>, all: seq<Entry>)
    requires DistinctIds(all) && multiset(sorted) == multiset(all)
    ensures DistinctIds(sorted)
    ensures StateMap(sorted) == StateMap(all)
    ensures |sorted| == |all|
    ensures forall e :: e in sorted ==> e in all
  {
    SameMembers(sorted, all);
    PermutedDistinct(sorted, all);
    forall i, j | 0 <= i < j < |sorted| ensures sorted[i].id != sorted[j].id {
      assert sorted[i] in all && sorted[j] in all;
    }
    SubMap(sorted, all);
    SubMap(all, sorted);
  }

  lemma SubMap(a: seq<Entry>, b: seq<Entry>)
    requires DistinctIds(a) && DistinctIds(b)
    requires forall e :: e in a ==> e in b
    ensures forall p :: p in StateMap(a) ==> p in StateMap(b) && StateMap(b)[p] == StateMap(a)[p]
  {
    StateMapLookup(a);
    StateMapLookup(b);
    forall p | p in StateMap(a) ensures p in StateMap(b) && StateMap(b)[p] == StateMap(a)[p] {
      var i :| 0 <= i < |a| && a[i].id == p;
      assert a[i] in b;
    }
  }

  lemma {:induction false} StateMapUpdate(all: seq<Entry>, i: nat, state: PeerState)
    requires DistinctIds(all) && i < |all|
    ensures StateMap(all[i := all[i].(state := state)]) == StateMap(all)[all[i].id := state]
    decreases |all|
  {
    var all' := all[i := all[i].(state := state)];
    var k := |all| - 1;
    var init := all[..k];
    if i == k {
      assert all'[..k] == init;
    } else {
      StateMapUpdate(init, i, state);
      assert all'[..k] == init[i := init[i].(state := state)];
      assert StateMap(all') == StateMap(init)[all[i].id := state][all[k].id := all[k].state];
    }
  }

  class QueryPeerset {
    const distance: PeerId -> nat
    var all: seq<Entry>
    var sorted: bool

    ghost predicate Valid()
      reads this
    {
      && DistinctIds(all)
      && (forall i :: 0 <= i < |all| ==> all[i].distance == distance(all[i].id))
      && (sorted ==> SortedEntries(all))
    }

    ghost function States(): Known
      requires Valid()
      reads this
    {
      StateMap(all)
    }

    constructor (distance: PeerId -> nat)
      ensures Valid() && States() == map[]
      ensures this.distance == distance
    {
      this.distance := distance;
      all := [];
      sorted := false;
    }

    method Find(p: PeerId) returns (i: int)
      requires Valid()
      ensures -1 <= i < |all|
      ensures i >= 0 <==> p in States()
      ensures i >= 0 ==> all[i].id == p
    {
      StateMapLookup(all);
      i := 0;
      while i < |all|
        invariant 0 <= i <= |all|
        invariant forall j :: 0 <= j < i ==> all[j].id != p
      {
        if all[i].id == p {
          return;
        }
        i := i + 1;
      }
      i := -1;
    }

    method TryAdd(p: PeerId, referredBy: PeerId) returns (added: bool)
      requires Valid()
      modifies this
      ensures Valid()
      ensures added <==> p !in old(States())
      ensures States() == if added then old(States())[p := Heard] else old(States())
    {
      var i := Find(p);
      if i >= 0 {
        return false;
      }
      StateMapLookup(all);
      assert (all + [Entry(p, distance(p), Heard, referredBy)])[..|all|] == all;
      all := all + [Entry(p, distance(p), Heard, referredBy)];
      sorted := false;
      added := true;
    }

    method Sort()
      requires Valid()
      modifies this
      ensures Valid() && sorted
      ensures |all| == |old(all)|
      ensures States() == old(States())
    {
      if sorted {
        return;
      }
      var s := Sorting.Sort(all, Closer());
      SortKeepsStates(s, all);
      forall i | 0 <= i < |s| ensures s[i].distance == distance(s[i].id) {
        assert s[i] in all;
      }
      all := s;
      sorted := true;
    }

    method SetState(p: PeerId, state: PeerState)
      requires Valid()
      requires p in States()
      modifies this
      ensures Valid()
      ensures States() == old(States())[p := state]
      ensures sorted == old(sorted)
    {
      var i := Find(p);
      StateMapUpdate(all, i, state);
      all := all[i := all[i].(state := state)];
    }

    method GetState(p: PeerId) returns (state: PeerState)
      requires Valid()
      requires p in States()
      ensures state == States()[p]
    {
      var i := Find(p);
      StateMapLookup(all);
      state := all[i].state;
    }

    method GetClosestNInStates(n: nat, states: set<PeerState>) returns (result: seq<PeerId>)
      requires Valid()
      modifies this
      ensures Valid() && States() == old(States())
      ensures IsClosest(result, States(), distance, n, states)
      ensures |all| == old(|all|)
    {
      Sort();
      result := [];
      var i := 0;
      while i < |all|
        invariant 0 <= i <= |all|
        invariant result == Select(all[..i], states)
      {
        assert all[..i + 1][..i] == all[..i];
        if all[i].state in states {
          result := result + [all[i].id];
        }
        i := i + 1;
      }
      assert all[..i] == all;
      SelectPrefixIsClosest(all, states, distance, n);
      if |result| >= n {
        result := result[..n];
      }
    }

    method GetClosestInStates(states: set<PeerState>) returns (result: seq<PeerId>)
      requires Valid()
      modifies this
      ensures Valid() && States() == old(States())
      ensures IsClosest(result, States(), distance, |result|, states)
      ensures Elems(result) == InState(States(), states)
      ensures |result| == |InState(States(), states)|
    {
      result := GetClosestNInStates(|all|, states);
      SelectBounded(all, states);
      ClosestWhenAllFit(result, States(), distance, |all|, states);
    }

    method NumHeard() returns (n: nat)
      requires Valid()
      modifies this
      ensures Valid() && States() == old(States())
      ensures n == |InState(States(), {Heard})|
    {
      var ps := GetClosestInStates({Heard});
      n := |ps|;
    }

    method NumWaiting() returns (n: nat)
      requires Valid()
      modifies this
      ensures Valid() && States() == old(States())
      ensures n == |InState(States(), {Waiting})|
    {
      var ps := GetClosestInStates({Waiting});
      n := |ps|;
    }
  }
}

/** The delivery records as objects: a map and a linked queue with head and tail references
    (go-libp2p-blossomsub/score.go). */
module DeliveryRecords {
  import opened Identifiers
  import opened Options
  import D = Deliveries

  class Node {
    const id: D.Id
    const expire: int
    var next: Node?

    constructor (id: D.Id, expire: int)
      ensures this.id == id && this.expire == expire && next == null
    {
      this.id, this.expire, next := id, expire, null;
    }
  }

  ghost function Succ(nodes: seq<Node>, i: nat): Node? {
    if i + 1 < |nodes| then nodes[i + 1] else null
  }

  /** The nodes are linked in this order. */
  ghost predicate Linked(nodes: seq<Node>)
    reads nodes
  {
    && (forall i, j :: 0 <= i < j < |nodes| ==> nodes[i] != nodes[j])
    && forall i :: 0 <= i < |nodes| ==> nodes[i].next == Succ(nodes, i)
  }

  ghost function QueueOf(nodes: seq<Node>): seq<D.Pending> {
    seq(|nodes|, i requires 0 <= i < |nodes| => D.Pending(nodes[i].id, nodes[i].expire))
  }

  class MessageDeliveries {
    const ttl: nat
    var records: map<D.Id, D.Record>
    var head: Node?
    var tail: Node?
    var now: int
    ghost var nodes: seq<Node>

    ghost predicate Valid()
      reads this, nodes
    {
      && Linked(nodes)
      && head == (if nodes == [] then null else nodes[0])
      && tail == (if nodes == [] then null else nodes[|nodes| - 1])
    }

    ghost function View(): D.State
      reads this
    {
      D.State(records, QueueOf(nodes), now)
    }

    constructor (ttl: nat)
      ensures Valid() && this.ttl == ttl && View() == D.State(map[], [], 0)
    {
      this.ttl := ttl;
      records, head, tail, now, nodes := map[], null, null, 0, [];
    }

    /** Puts a node at the end of the linked list. */
    method Enqueue(id: D.Id, expire: int)
      requires Valid()
      modifies this`head, this`tail, this`nodes, nodes
      ensures Valid() && fresh(set n | n in nodes && n !in old(nodes))
      ensures QueueOf(nodes) == old(QueueOf(nodes)) + [D.Pending(id, expire)]
    {
      var entry := new Node(id, expire);
      ghost var before := nodes;
      if tail != null {
        assert tail == nodes[|nodes| - 1];
        tail.next := entry;
      } else {
        head := entry;
      }
      tail := entry;
      nodes := nodes + [entry];
      LinkedNext(before, entry);
    }

    method GetRecord(id: D.Id, t: int)
      requires Valid() && now <= t
      modifies this, nodes
      ensures Valid() && fresh(set n | n in nodes && n !in old(nodes))
      ensures View() == D.Touch(old(View()), id, ttl, t)
    {
      hide Linked, QueueOf;
      now := t;
      if id in records {
        return;
      }
      records := records[id := D.NewRecord];
      Enqueue(id, t + ttl);
    }

    method ValidateMessage(id: D.Id, t: int)
      requires Valid() && now <= t
      modifies this, nodes
      ensures Valid() && View() == D.Touch(old(View()), id, ttl, t)
    {
      GetRecord(id, t);
    }

    method DeliverMessage(id: D.Id, from: PeerId, t: int) returns (marks: D.Marks)
      requires Valid() && now <= t
      modifies this, nodes
      ensures Valid() && (View(), marks) == D.Deliver(old(View()), id, from, ttl, t)
    {
      hide Linked, QueueOf, D.Touch;
      marks := D.NoMarks.(first := multiset{from});
      GetRecord(id, t);
      var rec := records[id];
      if rec.status != D.Unknown {
        return;
      }
      var dup := AllBut(if rec.peers.Some? then rec.peers.value else {}, from);
      records := records[id := rec.(status := D.Valid, credits := rec.credits + dup)];
      marks := marks.(dup := dup);
    }

    method RejectMessage(id: D.Id, from: PeerId, reason: D.Reason, t: int) returns (marks: D.Marks)
      requires Valid() && now <= t
      modifies this, nodes
      ensures Valid() && (View(), marks) == D.Reject(old(View()), id, from, reason, ttl, t)
      ensures marks.first == multiset{} && marks.dup == multiset{}
      ensures var unjudged := D.StatusOf(old(View()), id) == D.Unknown;
              marks.invalid == if reason.Faulty? then multiset{from}
                               else if unjudged && reason.ValidationFailed?
                               then multiset{from} + multiset(D.PeersOf(old(View()), id)) else multiset{}
    {
      hide Linked, QueueOf, D.Touch;
      D.RejectMarks(View(), id, from, reason, ttl, t);
      marks := D.NoMarks;
      if reason.Faulty? {
        return marks.(invalid := multiset{from});
      }
      if reason.Unseen? {
        return;
      }
      GetRecord(id, t);
      var rec := records[id];
      if rec.status != D.Unknown {
        return;
      }
      if reason.ValidationThrottled? {
        records := records[id := rec.(status := D.Throttled, peers := None)];
        return;
      }
      if reason.ValidationIgnored? {
        records := records[id := rec.(status := D.Ignored, peers := None)];
        return;
      }
      marks := marks.(invalid := multiset{from} + multiset(if rec.peers.Some? then rec.peers.value else {}));
      records := records[id := rec.(status := D.Invalid, peers := None)];
    }

    /** The peers map of the record is written only where it is not nil. */
    method DuplicateMessage(id: D.Id, from: PeerId, t: int) returns (marks: D.Marks)
      requires Valid() && D.Inv(View(), ttl) && now <= t
      modifies this, nodes
      ensures Valid() && D.Step(old(View()), D.Duplicating(id, from), ttl, t, View(), marks)
    {
      hide Linked, QueueOf, D.Touch, D.Inv;
      RecordIsWritable(View(), id, from, ttl, t);
      marks := D.NoMarks;
      GetRecord(id, t);
      var rec := records[id];
      if rec.peers.Some? && from in rec.peers.value {
        return;
      }
      match rec.status {
        case Unknown =>
          records := records[id := rec.(peers := Some(rec.peers.value + {from}))];
        case Valid =>
          var credits := rec.credits + multiset{from};
          records := records[id := rec.(peers := Some(rec.peers.value + {from}), credits := credits)];
          marks := marks.(dup := multiset{from});
        case Invalid =>
          marks := marks.(invalid := multiset{from});
        case _ =>
      }
    }

    method Gc(t: int)
      requires Valid() && now <= t
      modifies this
      ensures Valid() && forall x :: x in nodes ==> x in old(nodes)
      ensures View() == D.Collect(old(View()), t)
    {
      hide Linked, QueueOf, D.Collect;
      now := t;
      CollectAt(old(View()), t);
      ghost var goal := D.Collect(View(), t);
      while head != null && t > head.expire
        invariant Linked(nodes) && head == (if nodes == [] then null else nodes[0])
        invariant nodes != [] ==> tail == nodes[|nodes| - 1]
        invariant D.Collect(View(), t) == goal && now == t && forall x :: x in nodes ==> x in old(nodes)
        decreases |nodes|
      {
        PopHead(nodes);
        CollectHead(View(), t);
        records := records - {head.id};
        head := head.next;
        nodes := nodes[1..];
      }
      if head == null {
        tail := null;
      } else {
        PopHead(nodes);
      }
      EmptyQueue(nodes);
      CollectDone(View(), t);
    }
  }

  lemma CollectAt(s: D.State, t: int)
    ensures D.Collect(s.(now := t), t) == D.Collect(s, t)
  {
  }

  lemma EmptyQueue(nodes: seq<Node>)
    ensures nodes == [] <==> QueueOf(nodes) == []
  {
  }

  lemma PopHead(nodes: seq<Node>)
    requires Linked(nodes) && nodes != []
    ensures Linked(nodes[1..]) && nodes[0].next == (if nodes[1..] == [] then null else nodes[1..][0])
    ensures QueueOf(nodes) != [] && QueueOf(nodes)[0] == D.Pending(nodes[0].id, nodes[0].expire)
    ensures QueueOf(nodes[1..]) == QueueOf(nodes)[1..]
  {
    var rest := nodes[1..];
    forall i | 0 <= i < |rest| ensures rest[i].next == Succ(rest, i) {
      assert rest[i] == nodes[i + 1] && nodes[i + 1].next == Succ(nodes, i + 1);
    }
  }

  /** Taking one expired entry off the queue comes nearer the collected state. */
  lemma CollectHead(s: D.State, t: int)
    requires s.queue != [] && t > s.queue[0].expire
    ensures D.Collect(s, t) == D.Collect(D.State(s.records - {s.queue[0].id}, s.queue[1..], s.now), t)
  {
    hide D.IdsOf;
    var n := D.Expired(s.queue[1..], t);
    assert D.Expired(s.queue, t) == n + 1;
    assert s.queue[..n + 1] == [s.queue[0]] + s.queue[1..][..n];
    IdsOfFirst(s.queue[0], s.queue[1..][..n]);
    assert s.queue[n + 1..] == s.queue[1..][n..];
    var a, b := D.IdsOf(s.queue[..n + 1]), D.IdsOf(s.queue[1..][..n]);
    assert s.records - a == s.records - {s.queue[0].id} - b;
  }

  lemma IdsOfFirst(p: D.Pending, q: seq<D.Pending>)
    ensures D.IdsOf([p] + q) == {p.id} + D.IdsOf(q)
  {
  }

  lemma CollectDone(s: D.State, t: int)
    requires s.now == t && (s.queue == [] || t <= s.queue[0].expire)
    ensures D.Collect(s, t) == s
  {
    assert s.queue[..0] == [] && s.queue[0..] == s.queue;
    assert D.IdsOf(s.queue[..0]) == {} && s.records - {} == s.records;
  }

  lemma OneMore(s: set<PeerId>, p: PeerId)
    requires p !in s
    ensures multiset(s + {p}) == multiset(s) + multiset{p}
  {
  }

  /** The loop that marks every peer but the one the message came from. */
  method AllBut(peers: set<PeerId>, from: PeerId) returns (marked: multiset<PeerId>)
    ensures marked == multiset(peers - {from})
  {
    marked := multiset{};
    var rest, done := peers, {};
    while rest != {}
      invariant rest !! done && rest + done == peers && marked == multiset(done - {from})
      decreases |rest|
    {
      var p :| p in rest;
      if p != from {
        marked := marked + multiset{p};
        OneMore(done - {from}, p);
      }
      assert done + {p} - {from} == if p == from then done - {from} else (done - {from}) + {p};
      rest, done := rest - {p}, done + {p};
    }
    assert done == peers;
  }

  lemma RecordIsWritable(s: D.State, id: D.Id, from: PeerId, ttl: nat, t: int)
    requires D.Inv(s, ttl) && s.now <= t
    ensures id in s.records ==> D.Writable(s.records[id])
    ensures D.Writable(D.Touch(s, id, ttl, t).records[id])
  {
    D.DuplicateKeeps(s, id, from, ttl, t);
  }

  lemma LinkedNext(nodes: seq<Node>, entry: Node)
    requires forall i, j :: 0 <= i < j < |nodes| ==> nodes[i] != nodes[j]
    requires entry !in nodes && entry.next == null
    requires forall i :: 0 <= i < |nodes| ==> nodes[i].next == Succ(nodes + [entry], i)
    ensures Linked(nodes + [entry])
    ensures QueueOf(nodes + [entry]) == QueueOf(nodes) + [D.Pending(entry.id, entry.expire)]
  {
    var all := nodes + [entry];
    forall i | 0 <= i < |all| ensures all[i].next == Succ(all, i) {
      if i < |nodes| {
        assert all[i] == nodes[i];
      }
    }
  }
}

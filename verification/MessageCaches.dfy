/** The message cache as an object: history slots are slices over backing arrays, and the array of the
    slot that is shifted out is used again for the new one (go-libp2p-blossomsub/mcache.go). */
module MessageCaches {
  import opened Identifiers
  import opened Bitmasks
  import opened Options
  import M = MessageCache

  /** A Go slice: the first `len` elements of an array. */
  datatype Slice = Slice(buf: array<M.Entry>, len: nat)

  ghost function Bufs(slots: seq<Slice>): set<object> {
    set s | s in slots :: s.buf
  }

  /** No two slots write into the same array; an array without room is never written. */
  ghost predicate Apart(slots: seq<Slice>) {
    forall i, j :: 0 <= i < j < |slots| ==> slots[i].buf != slots[j].buf || slots[i].buf.Length == 0
  }

  class MessageCache {
    var msgs: map<M.Id, M.Msg>
    var requests: map<M.Id, map<PeerId, nat>>
    var slots: seq<Slice>
    ghost var history: seq<seq<M.Entry>>
    const gossip: nat

    ghost function Repr(): set<object>
      reads this
    {
      Bufs(slots)
    }

    ghost predicate Holds(i: nat)
      requires i < |slots| == |history|
      reads this, slots[i].buf
    {
      slots[i].len <= slots[i].buf.Length && history[i] == slots[i].buf[..slots[i].len]
    }

    ghost predicate Valid()
      reads this, Repr()
    {
      && |slots| == |history| && gossip <= |slots| && Apart(slots)
      && forall i :: 0 <= i < |slots| ==> slots[i] in slots && Holds(i)
    }

    ghost function View(): M.State
      reads this
    {
      M.State(msgs, requests, history)
    }

    constructor (gossip: nat, history: nat)
      requires gossip <= history
      ensures Valid() && fresh(Repr()) && this.gossip == gossip
      ensures View() == M.State(map[], map[], seq(history, _ => []))
    {
      var none := new M.Entry[0];
      msgs, requests := map[], map[];
      slots := seq(history, _ => Slice(none, 0));
      this.history := seq(history, _ => []);
      this.gossip := gossip;
    }

    /** If the array of the newest slot is full, its elements move to a larger one. */
    method MakeRoom(e: M.Entry)
      requires Valid() && slots != []
      modifies this`slots
      ensures Valid() && fresh(Repr() - old(Repr())) && slots != []
              && slots[0].len == old(slots[0].len) < slots[0].buf.Length
    {
      var b, n := slots[0].buf, slots[0].len;
      assert Holds(0);
      if n == b.Length {
        ghost var before := slots;
        var larger := Larger(b, e);
        Unshared(slots, larger);
        Replaced(slots, Slice(larger, n));
        hide Apart, Bufs;
        slots := slots[0 := Slice(larger, n)];
        assert larger[..n] == b[..n];
        forall i | 0 < i < |slots| ensures Holds(i) {
          assert slots[i] == before[i] && old(Holds(i));
        }
      }
    }

    /** Writes behind the newest slot, whose array has room. */
    method Push(e: M.Entry)
      requires Valid() && slots != [] && slots[0].len < slots[0].buf.Length
      modifies this`slots, this`history, slots[0].buf
      ensures Valid() && Repr() <= old(Repr()) && slots != []
      ensures history == old(history)[0 := old(history)[0] + [e]]
    {
      var b, n := slots[0].buf, slots[0].len;
      assert slots[0] in slots && Holds(0);
      ghost var before := slots;
      Unshared(slots, b);
      Replaced(slots, Slice(b, n + 1));
      hide Apart, Bufs;
      b[n] := e;
      slots := slots[0 := Slice(b, n + 1)];
      history := history[0 := history[0] + [e]];
      forall i | 0 < i < |slots| ensures Holds(i) {
        assert slots[i] == before[i] && slots[i].buf != b && old(Holds(i));
      }
    }

    /** `append` to the newest slot: in place if the array has room, in a larger copy if not. No other
        slot is changed. */
    method Append(e: M.Entry)
      requires Valid() && slots != []
      modifies this`slots, this`history, Repr()
      ensures Valid() && fresh(Repr() - old(Repr())) && slots != []
      ensures history == old(history)[0 := old(history)[0] + [e]]
    {
      hide Apart, Bufs;
      MakeRoom(e);
      FirstIn(slots);
      Push(e);
    }

    method Put(m: M.Msg)
      requires Valid() && slots != []
      modifies this, Repr()
      ensures Valid() && fresh(Repr() - old(Repr())) && slots != []
      ensures View() == M.Put(old(View()), m)
    {
      hide Slices, Apart, M.Entries;
      msgs := msgs[m.id := m];
      var slices := SliceBitmask(m.bitmask);
      ghost var h := history;
      EntriesNone(h[0], m.id, slices);
      for i := 0 to |slices|
        invariant Valid() && fresh(Repr() - old(Repr())) && slots != []
        invariant msgs == old(msgs)[m.id := m] && requests == old(requests)
        invariant h != [] && history == h[0 := h[0] + M.Entries(m.id, slices[..i])]
      {
        Append(M.Entry(m.id, slices[i]));
        EntriesNext(h[0], m.id, slices, i);
      }
      assert slices[..|slices|] == slices;
    }

    method GetForPeer(id: M.Id, p: PeerId) returns (m: Option<M.Msg>, count: nat)
      requires Valid()
      modifies this
      ensures Valid() && Repr() == old(Repr()) && View() == M.Fetch(old(View()), id, p)
      ensures m == if id in old(msgs) then Some(old(msgs)[id]) else None
      ensures count == if id in old(msgs) then M.CountOf(old(View()), id, p) + 1 else 0
    {
      if id !in msgs {
        return None, 0;
      }
      var tx: map<PeerId, nat> := if id in requests then requests[id] else map[];
      count := (if p in tx then tx[p] else 0) + 1;
      requests := requests[id := tx[p := count]];
      return Some(msgs[id]), count;
    }

    method GetGossipIds(b: Bitmask) returns (ids: seq<M.Id>)
      requires Valid()
      ensures ids == M.Advertised(history[..gossip], b)
    {
      ids := [];
      for i := 0 to gossip
        invariant ids == M.Advertised(history[..i], b)
      {
        assert history[..i + 1][..i] == history[..i];
        ghost var before := ids;
        assert Holds(i);
        for k := 0 to slots[i].len
          invariant ids == before + M.OfBitmask(history[i][..k], b)
        {
          assert history[i][..k + 1][..k] == history[i][..k] && history[i][k] == slots[i].buf[k];
          if slots[i].buf[k].bitmask == b {
            ids := ids + [slots[i].buf[k].id];
          }
        }
        assert history[i][..slots[i].len] == history[i];
      }
    }

    method DropOldest()
      requires Valid() && slots != []
      modifies this`msgs, this`requests
      ensures msgs == old(msgs) - M.Ids(M.Last(history)) && requests == old(requests) - M.Ids(M.Last(history))
    {
      var last := slots[|slots| - 1];
      ghost var oldest := M.Last(history);
      assert Holds(|slots| - 1);
      ghost var dropped: set<M.Id> := {};
      for k := 0 to last.len
        invariant dropped == M.Ids(oldest[..k])
        invariant msgs == old(msgs) - dropped && requests == old(requests) - dropped
      {
        DropOne(oldest, k);
        msgs := msgs - {last.buf[k].id};
        requests := requests - {last.buf[k].id};
        dropped := dropped + {last.buf[k].id};
      }
      assert oldest[..last.len] == oldest;
    }

    /** The ids of the oldest slot are dropped; its array becomes the array of the new, empty slot. */
    method Shift()
      requires Valid() && slots != []
      modifies this
      ensures Valid() && Repr() <= old(Repr()) && View() == M.Shift(old(View()))
    {
      hide Apart, Bufs, M.Ids;
      DropOldest();
      ghost var before := slots;
      slots := MoveOn(slots);
      history := [[]] + history[..|history| - 1];
      Rotated(before, slots);
      assert Holds(0);
      forall k | 0 < k < |slots| ensures Holds(k) {
        assert slots[k] == before[k - 1] && old(Holds(k - 1));
      }
    }
  }

  /** The loop that moves every slot to the next place, and the array of the last one to the first. */
  method MoveOn(slots: seq<Slice>) returns (r: seq<Slice>)
    requires slots != []
    ensures r == [Slice(slots[|slots| - 1].buf, 0)] + slots[..|slots| - 1]
  {
    var n := |slots|;
    var last := slots[n - 1];
    r := slots;
    var i := n - 2;
    while i >= 0
      invariant -1 <= i <= n - 2 && |r| == n
      invariant forall k :: 0 <= k < i + 2 && k < n ==> r[k] == slots[k]
      invariant forall k :: i + 2 <= k < n ==> r[k] == slots[k - 1]
    {
      r := r[i + 1 := r[i]];
      i := i - 1;
    }
    r := [Slice(last.buf, 0)] + r[1..];
  }

  /** The array to write is in no other slot: it has room, or it is new. */
  lemma Unshared(slots: seq<Slice>, b: array<M.Entry>)
    requires slots != [] && Apart(slots) && b.Length > 0 && (b == slots[0].buf || b !in Bufs(slots))
    ensures forall i :: 0 < i < |slots| ==> slots[i].buf != b
    ensures b == slots[0].buf ==> b in Bufs(slots)
  {
    forall i | 0 < i < |slots| ensures slots[i].buf != b {
      assert slots[i] in slots;
    }
  }

  lemma EntriesNone(h: seq<M.Entry>, id: M.Id, slices: seq<Bitmask>)
    ensures h + M.Entries(id, slices[..0]) == h
  {
  }

  lemma EntriesNext(h: seq<M.Entry>, id: M.Id, slices: seq<Bitmask>, i: nat)
    requires i < |slices|
    ensures h + M.Entries(id, slices[..i + 1]) == h + M.Entries(id, slices[..i]) + [M.Entry(id, slices[i])]
  {
  }

  lemma FirstIn(slots: seq<Slice>)
    requires slots != []
    ensures slots[0].buf in Bufs(slots)
  {
    assert slots[0] in slots;
  }

  lemma Replaced(slots: seq<Slice>, s: Slice)
    requires slots != [] && Apart(slots) && forall i :: 0 < i < |slots| ==> slots[i].buf != s.buf
    ensures Apart(slots[0 := s]) && Bufs(slots[0 := s]) <= Bufs(slots) + {s.buf}
  {
    forall t | t in slots[0 := s] ensures t.buf in Bufs(slots) + {s.buf} {
      var i :| 0 <= i < |slots| && slots[0 := s][i] == t;
      if i > 0 {
        assert slots[i] in slots;
      }
    }
  }

  /** A larger array with the same elements. */
  method Larger(b: array<M.Entry>, e: M.Entry) returns (c: array<M.Entry>)
    ensures fresh(c) && c.Length > b.Length && c[..b.Length] == b[..]
  {
    c := new M.Entry[2 * b.Length + 1](i => e);
    forall k | 0 <= k < b.Length {
      c[k] := b[k];
    }
  }

  /** Moving the slots on and using the last array again keeps the arrays apart. */
  lemma Rotated(before: seq<Slice>, after: seq<Slice>)
    requires before != [] && Apart(before) && after == [Slice(before[|before| - 1].buf, 0)] + before[..|before| - 1]
    ensures Apart(after) && Bufs(after) <= Bufs(before)
  {
    forall s | s in after ensures s.buf in Bufs(before) {
      var i :| 0 <= i < |after| && after[i] == s;
      if i == 0 {
        assert before[|before| - 1] in before;
      } else {
        assert before[i - 1] in before;
      }
    }
  }

  lemma DropOne(entries: seq<M.Entry>, k: nat)
    requires k < |entries|
    ensures M.Ids(entries[..k + 1]) == M.Ids(entries[..k]) + {entries[k].id}
  {
    assert entries[..k + 1] == entries[..k] + [entries[k]];
  }
}

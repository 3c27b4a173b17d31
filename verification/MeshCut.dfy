/** How the heartbeat cuts an oversubscribed mesh down to D peers while keeping enough outbound
    ones (go-libp2p-blossomsub/blossomsub.go, heartbeat, "do we have too many peers?"). */
module MeshCut {
  import opened Identifiers
  import opened SeqFacts

  // -------------------------------------------------------- specification

  /** Puts element i in front and shifts the elements before it one to the right. */
  function Rotate(s: seq<PeerId>, i: nat): (r: seq<PeerId>)
    requires i < |s|
    ensures |r| == |s|
  {
    [s[i]] + s[..i] + s[i + 1..]
  }

  function Count(s: seq<PeerId>, outbound: set<PeerId>): (n: nat)
    ensures n <= |s|
  {
    if s == [] then 0
    else Count(s[..|s| - 1], outbound) + if s[|s| - 1] in outbound then 1 else 0
  }

  /** The peers of `s` that are not outbound, in order. */
  function Inbound(s: seq<PeerId>, outbound: set<PeerId>): (r: seq<PeerId>)
    ensures |r| == |s| - Count(s, outbound)
  {
    if s == [] then []
    else Inbound(s[..|s| - 1], outbound) + if s[|s| - 1] in outbound then [] else [s[|s| - 1]]
  }

  /** First loop: bring the outbound peers of the selection s[..d] to the front. */
  function BubbleIn(s: seq<PeerId>, outbound: set<PeerId>, i: nat, d: nat, ihave: int): (r: seq<PeerId>)
    requires d <= |s|
    ensures |r| == |s|
    decreases d - i
  {
    if i >= d || ihave <= 0 then s
    else if s[i] in outbound then BubbleIn(Rotate(s, i), outbound, i + 1, d, ihave - 1)
    else BubbleIn(s, outbound, i + 1, d, ihave)
  }

  /** Second loop: bring `ineed` outbound peers from behind the selection to the front. */
  function BubbleUp(s: seq<PeerId>, outbound: set<PeerId>, i: nat, ineed: int): (r: seq<PeerId>)
    ensures |r| == |s|
    decreases |s| - i
  {
    if i >= |s| || ineed <= 0 then s
    else if s[i] in outbound then BubbleUp(Rotate(s, i), outbound, i + 1, ineed - 1)
    else BubbleUp(s, outbound, i + 1, ineed)
  }

  /** The whole rearrangement; the first `d` peers are kept. */
  function Arrange(s: seq<PeerId>, outbound: set<PeerId>, d: nat, dout: nat): (r: seq<PeerId>)
    requires d <= |s|
    ensures |r| == |s|
  {
    var have := Count(s[..d], outbound);
    if have >= dout then s
    else
      var t := if have > 0 then BubbleIn(s, outbound, 1, d, have) else s;
      BubbleUp(t, outbound, d, dout - have)
  }

  // --------------------------------------------------------------- counting

  lemma {:induction false} CountOfConcat(s: seq<PeerId>, t: seq<PeerId>, outbound: set<PeerId>)
    ensures Count(s + t, outbound) == Count(s, outbound) + Count(t, outbound)
  {
    if t == [] {
      assert s + t == s;
    } else {
      CountOfConcat(s, t[..|t| - 1], outbound);
      assert (s + t)[..|s + t| - 1] == s + t[..|t| - 1];
    }
  }

  lemma {:induction false} InboundOfConcat(s: seq<PeerId>, t: seq<PeerId>, outbound: set<PeerId>)
    ensures Inbound(s + t, outbound) == Inbound(s, outbound) + Inbound(t, outbound)
  {
    hide Count;
    if t == [] {
      assert s + t == s;
    } else {
      InboundOfConcat(s, t[..|t| - 1], outbound);
      assert (s + t)[..|s + t| - 1] == s + t[..|t| - 1];
    }
  }

  lemma CountSplit(s: seq<PeerId>, t: seq<PeerId>, outbound: set<PeerId>)
    ensures Count(s + t, outbound) == Count(s, outbound) + Count(t, outbound)
    ensures Inbound(s + t, outbound) == Inbound(s, outbound) + Inbound(t, outbound)
  {
    hide Count, Inbound;
    CountOfConcat(s, t, outbound);
    InboundOfConcat(s, t, outbound);
  }

  lemma CountAt(s: seq<PeerId>, i: nat, outbound: set<PeerId>)
    requires i < |s|
    ensures Count(s[..i + 1], outbound) == Count(s[..i], outbound) + if s[i] in outbound then 1 else 0
    ensures Inbound(s[..i + 1], outbound) == Inbound(s[..i], outbound) + if s[i] in outbound then [] else [s[i]]
  {
    assert s[..i + 1][..i] == s[..i];
  }

  lemma {:induction false} CountAll(s: seq<PeerId>, outbound: set<PeerId>)
    ensures Count(s, outbound) == |s| <==> forall p :: p in s ==> p in outbound
    ensures Count(s, outbound) == 0 <==> forall p :: p in s ==> p !in outbound
    ensures Count(s, outbound) == 0 ==> Inbound(s, outbound) == s
  {
    if s != [] {
      var init := s[..|s| - 1];
      CountAll(init, outbound);
      assert s == init + [s[|s| - 1]];
    }
  }

  lemma {:induction false} InboundMembers(s: seq<PeerId>, outbound: set<PeerId>)
    ensures forall p :: p in Inbound(s, outbound) <==> p in s && p !in outbound
  {
    if s != [] {
      InboundMembers(s[..|s| - 1], outbound);
      assert s == s[..|s| - 1] + [s[|s| - 1]];
    }
  }

  // ------------------------------------------------------------ permutation

  /** The same peers, with the same number of outbound ones. */
  ghost predicate SamePeers(r: seq<PeerId>, s: seq<PeerId>, outbound: set<PeerId>) {
    multiset(r) == multiset(s) && Count(r, outbound) == Count(s, outbound)
  }

  lemma RotatePermutes(s: seq<PeerId>, i: nat, outbound: set<PeerId>)
    requires i < |s|
    ensures SamePeers(Rotate(s, i), s, outbound)
  {
    var a, p, b := s[..i], [s[i]], s[i + 1..];
    assert s == a + p + b;
    CountSplit(a + p, b, outbound);
    CountSplit(a, p, outbound);
    CountSplit(p + a, b, outbound);
    CountSplit(p, a, outbound);
  }

  lemma {:induction false} BubbleInPermutes(s: seq<PeerId>, outbound: set<PeerId>, i: nat, d: nat, ihave: int)
    requires d <= |s|
    ensures SamePeers(BubbleIn(s, outbound, i, d, ihave), s, outbound)
    decreases d - i
  {
    if i < d && ihave > 0 {
      if s[i] in outbound {
        RotatePermutes(s, i, outbound);
        BubbleInPermutes(Rotate(s, i), outbound, i + 1, d, ihave - 1);
      } else {
        BubbleInPermutes(s, outbound, i + 1, d, ihave);
      }
    }
  }

  lemma {:induction false} BubbleUpPermutes(s: seq<PeerId>, outbound: set<PeerId>, i: nat, ineed: int)
    ensures SamePeers(BubbleUp(s, outbound, i, ineed), s, outbound)
    decreases |s| - i
  {
    if i < |s| && ineed > 0 {
      if s[i] in outbound {
        RotatePermutes(s, i, outbound);
        BubbleUpPermutes(Rotate(s, i), outbound, i + 1, ineed - 1);
      } else {
        BubbleUpPermutes(s, outbound, i + 1, ineed);
      }
    }
  }

  /** No peer is lost or duplicated. */
  lemma ArrangePermutes(s: seq<PeerId>, outbound: set<PeerId>, d: nat, dout: nat)
    requires d <= |s|
    ensures SamePeers(Arrange(s, outbound, d, dout), s, outbound)
  {
    var have := Count(s[..d], outbound);
    if have < dout {
      BubbleInPermutes(s, outbound, 1, d, have);
      BubbleUpPermutes(if have > 0 then BubbleIn(s, outbound, 1, d, have) else s, outbound, d, dout - have);
    }
  }

  // ------------------------------------------------------------------ shape

  /** `front` are outbound peers, and every outbound peer of `s` is among them. */
  ghost predicate Gathers(front: seq<PeerId>, s: seq<PeerId>, outbound: set<PeerId>) {
    && |front| == Count(s, outbound)
    && (forall p :: p in front ==> p in outbound)
    && (forall p :: p in s && p in outbound ==> p in front)
  }

  lemma RotateShape(front: seq<PeerId>, middle: seq<PeerId>, p: PeerId, rest: seq<PeerId>)
    ensures Rotate(front + middle + [p] + rest, |front| + |middle|) == [p] + front + middle + rest
  {
    var s := front + middle + [p] + rest;
    var i := |front| + |middle|;
    assert s[..i] == front + middle;
    assert s[i + 1..] == rest;
  }

  /** While the first loop runs, the part already visited is its outbound peers followed by its
      inbound ones in their old order. */
  ghost predicate Visited(s: seq<PeerId>, orig: seq<PeerId>, outbound: set<PeerId>, front: seq<PeerId>, i: nat) {
    && i <= |orig| && Gathers(front, orig[..i], outbound)
    && s == front + Inbound(orig[..i], outbound) + orig[i..]
  }

  lemma VisitNext(s: seq<PeerId>, orig: seq<PeerId>, outbound: set<PeerId>, front: seq<PeerId>, i: nat)
    requires i < |orig| && Visited(s, orig, outbound, front, i)
    ensures |s| == |orig| && s[i] == orig[i]
    ensures if orig[i] in outbound then Visited(Rotate(s, i), orig, outbound, [orig[i]] + front, i + 1)
            else Visited(s, orig, outbound, front, i + 1)
  {
    var p, inb := orig[i], Inbound(orig[..i], outbound);
    CountAt(orig, i, outbound);
    assert orig[i..] == [p] + orig[i + 1..];
    assert s == front + inb + [p] + orig[i + 1..];
    if p in outbound {
      RotateShape(front, inb, p, orig[i + 1..]);
      GathersMore(front, orig, i, outbound);
    } else {
      GathersSame(front, orig, i, outbound);
    }
  }

  lemma VisitRest(s: seq<PeerId>, orig: seq<PeerId>, outbound: set<PeerId>, front: seq<PeerId>, i: nat, d: nat)
    requires i <= d <= |orig| && Visited(s, orig, outbound, front, i)
    requires Count(orig[..d], outbound) <= Count(orig[..i], outbound)
    ensures Visited(s, orig, outbound, front, d)
  {
    QuietStretch(orig, i, d, outbound);
    assert orig[i..] == orig[i..d] + orig[d..];
  }

  lemma {:induction false} BubbleInShape(s: seq<PeerId>, orig: seq<PeerId>, outbound: set<PeerId>, front: seq<PeerId>,
                                         i: nat, d: nat, ihave: int) returns (front': seq<PeerId>)
    requires i <= d <= |orig| == |s| && Visited(s, orig, outbound, front, i)
    requires ihave >= Count(orig[..d], outbound) - Count(orig[..i], outbound)
    ensures Visited(BubbleIn(s, outbound, i, d, ihave), orig, outbound, front', d)
    decreases d - i
  {
    if i == d || ihave <= 0 {
      VisitRest(s, orig, outbound, front, i, d);
      front' := front;
    } else {
      VisitNext(s, orig, outbound, front, i);
      CountAt(orig, i, outbound);
      if orig[i] in outbound {
        front' := BubbleInShape(Rotate(s, i), orig, outbound, [orig[i]] + front, i + 1, d, ihave - 1);
      } else {
        front' := BubbleInShape(s, orig, outbound, front, i + 1, d, ihave);
      }
    }
  }

  lemma GathersMore(front: seq<PeerId>, orig: seq<PeerId>, i: nat, outbound: set<PeerId>)
    requires i < |orig| && orig[i] in outbound && Gathers(front, orig[..i], outbound)
    ensures Gathers([orig[i]] + front, orig[..i + 1], outbound)
  {
    CountAt(orig, i, outbound);
    assert orig[..i + 1] == orig[..i] + [orig[i]];
  }

  lemma GathersSame(front: seq<PeerId>, orig: seq<PeerId>, i: nat, outbound: set<PeerId>)
    requires i < |orig| && orig[i] !in outbound && Gathers(front, orig[..i], outbound)
    ensures Gathers(front, orig[..i + 1], outbound)
  {
    CountAt(orig, i, outbound);
    assert orig[..i + 1] == orig[..i] + [orig[i]];
  }

  /** A stretch without outbound peers adds nothing to gather. */
  lemma QuietStretch(orig: seq<PeerId>, i: nat, d: nat, outbound: set<PeerId>)
    requires i <= d <= |orig|
    requires Count(orig[..d], outbound) <= Count(orig[..i], outbound)
    ensures Count(orig[..d], outbound) == Count(orig[..i], outbound)
    ensures Inbound(orig[..d], outbound) == Inbound(orig[..i], outbound) + orig[i..d]
    ensures forall p :: p in orig[..d] && p in outbound ==> p in orig[..i]
  {
    assert orig[..d] == orig[..i] + orig[i..d];
    CountSplit(orig[..i], orig[i..d], outbound);
    CountAll(orig[i..d], outbound);
  }

  /** While the second loop runs, the part already visited is outbound peers, then the inbound
      peers `kept` of the old selection, then inbound peers that were passed over. */
  ghost predicate Passed(s: seq<PeerId>, outbound: set<PeerId>, front: seq<PeerId>, kept: seq<PeerId>,
                         passed: seq<PeerId>, i: nat) {
    && i == |front| + |kept| + |passed| <= |s|
    && s[..i] == front + kept + passed
    && (forall p :: p in front ==> p in outbound)
    && Count(passed, outbound) == 0
  }

  lemma PassNext(s: seq<PeerId>, outbound: set<PeerId>, front: seq<PeerId>, kept: seq<PeerId>, passed: seq<PeerId>,
                 i: nat)
    requires i < |s| && Passed(s, outbound, front, kept, passed, i)
    ensures if s[i] in outbound then Passed(Rotate(s, i), outbound, [s[i]] + front, kept, passed, i + 1)
            else Passed(s, outbound, front, kept, passed + [s[i]], i + 1)
  {
    var p := s[i];
    if p in outbound {
      assert Rotate(s, i)[..i + 1] == [p] + s[..i];
      assert [p] + (front + kept + passed) == ([p] + front) + kept + passed;
    } else {
      assert s[..i + 1] == s[..i] + [p];
      assert (passed + [p])[..|passed|] == passed;
    }
  }

  lemma {:induction false} BubbleUpShape(s: seq<PeerId>, outbound: set<PeerId>, front: seq<PeerId>, kept: seq<PeerId>,
                                         passed: seq<PeerId>, i: nat, ineed: int)
      returns (front': seq<PeerId>, tail: seq<PeerId>)
    requires ineed >= 0 && Passed(s, outbound, front, kept, passed, i)
    ensures BubbleUp(s, outbound, i, ineed) == front' + kept + tail
    ensures forall p :: p in front' ==> p in outbound
    ensures forall p :: p in front ==> p in front'
    ensures |front| <= |front'| <= |front| + ineed
    ensures |front'| == |front| + ineed || Count(tail, outbound) == 0
    decreases |s| - i
  {
    if i == |s| || ineed == 0 {
      front', tail := front, passed + s[i..];
      assert s == s[..i] + s[i..];
      if i == |s| {
        assert tail == passed;
      }
    } else {
      PassNext(s, outbound, front, kept, passed, i);
      if s[i] in outbound {
        front', tail := BubbleUpShape(Rotate(s, i), outbound, [s[i]] + front, kept, passed, i + 1, ineed - 1);
        assert forall p :: p in front ==> p in [s[i]] + front;
      } else {
        front', tail := BubbleUpShape(s, outbound, front, kept, passed + [s[i]], i + 1, ineed);
      }
    }
  }

  /** The arrangement when too few outbound peers were selected at first. */
  lemma ArrangeShape(s: seq<PeerId>, outbound: set<PeerId>, d: nat, dout: nat)
      returns (front: seq<PeerId>, tail: seq<PeerId>)
    requires d <= |s| && Count(s[..d], outbound) < dout
    ensures Arrange(s, outbound, d, dout) == front + Inbound(s[..d], outbound) + tail
    ensures forall p :: p in front ==> p in outbound
    ensures forall p :: p in s[..d] && p in outbound ==> p in front
    ensures Count(s[..d], outbound) <= |front| <= dout
    ensures |front| == dout || Count(tail, outbound) == 0
  {
    var have := Count(s[..d], outbound);
    var sel, t;
    if have > 0 {
      sel := SelectionBubbled(s, outbound, d);
      t := BubbleIn(s, outbound, 1, d, have);
    } else {
      sel, t := [], s;
      SelectionWithoutOutbound(s, outbound, d);
    }
    VisitedIsPassed(t, s, outbound, sel, d);
    front, tail := BubbleUpShape(t, outbound, sel, Inbound(s[..d], outbound), [], d, dout - have);
  }

  lemma VisitedIsPassed(t: seq<PeerId>, s: seq<PeerId>, outbound: set<PeerId>, sel: seq<PeerId>, d: nat)
    requires Visited(t, s, outbound, sel, d)
    ensures Passed(t, outbound, sel, Inbound(s[..d], outbound), [], d)
  {
    assert t[..d] == sel + Inbound(s[..d], outbound) + [];
  }

  lemma SelectionWithoutOutbound(s: seq<PeerId>, outbound: set<PeerId>, d: nat)
    requires d <= |s| && Count(s[..d], outbound) == 0
    ensures Visited(s, s, outbound, [], d)
  {
    CountAll(s[..d], outbound);
    assert s == s[..d] + s[d..];
  }

  lemma SelectionBubbled(s: seq<PeerId>, outbound: set<PeerId>, d: nat) returns (front: seq<PeerId>)
    requires 1 <= d <= |s|
    ensures Visited(BubbleIn(s, outbound, 1, d, Count(s[..d], outbound)), s, outbound, front, d)
  {
    var first := VisitFirst(s, outbound);
    front := BubbleInShape(s, s, outbound, first, 1, d, Count(s[..d], outbound));
  }

  lemma VisitFirst(s: seq<PeerId>, outbound: set<PeerId>) returns (front: seq<PeerId>)
    requires s != []
    ensures Visited(s, s, outbound, front, 1)
  {
    front := if s[0] in outbound then [s[0]] else [];
    CountAt(s, 0, outbound);
    assert s[..1] == [s[0]] && s == [s[0]] + s[1..];
  }

  // --------------------------------------------------------------- theorems

  /** The kept peers hold at least dout outbound ones, or all there are. */
  lemma KeepsOutbound(s: seq<PeerId>, outbound: set<PeerId>, d: nat, dout: nat)
    requires dout <= d <= |s|
    ensures var kept := Arrange(s, outbound, d, dout)[..d];
            Count(kept, outbound) >= dout || Count(kept, outbound) == Count(s, outbound)
  {
    var r := Arrange(s, outbound, d, dout);
    if Count(s[..d], outbound) < dout {
      var front, tail := ArrangeShape(s, outbound, d, dout);
      assert r[..d] == front + r[|front|..d];
      CountSplit(front, r[|front|..d], outbound);
      CountAll(front, outbound);
      if |front| < dout {
        ArrangePermutes(s, outbound, d, dout);
        InboundMembers(s[..d], outbound);
        TailOutsideFront(front, Inbound(s[..d], outbound), tail, outbound, d);
      }
    }
  }

  /** The selection is n outbound peers, and then the first of the inbound peers `middle`. */
  ghost predicate OutboundFirst(kept: seq<PeerId>, n: nat, middle: seq<PeerId>, outbound: set<PeerId>) {
    n <= |kept| <= n + |middle| && kept[n..] == middle[..|kept| - n] && Count(kept, outbound) == n
  }

  /** The cut changes the selection no more than it must: with enough outbound peers it is left alone, and
      otherwise it becomes n outbound peers, no more than the quota, and the first inbound peers it had. */
  lemma CutIsMinimal(s: seq<PeerId>, outbound: set<PeerId>, d: nat, dout: nat) returns (n: nat)
    requires dout <= d <= |s|
    ensures Count(s[..d], outbound) >= dout ==> Arrange(s, outbound, d, dout) == s
    ensures Count(s[..d], outbound) < dout ==>
              && Count(s[..d], outbound) <= n <= dout
              && OutboundFirst(Arrange(s, outbound, d, dout)[..d], n, Inbound(s[..d], outbound), outbound)
  {
    n := 0;
    if Count(s[..d], outbound) < dout {
      var front, tail := ArrangeShape(s, outbound, d, dout);
      hide Arrange, Inbound, Count, OutboundFirst;
      n := |front|;
      InboundMembers(s[..d], outbound);
      KeptFirst(Arrange(s, outbound, d, dout), front, Inbound(s[..d], outbound), tail, d, outbound);
    }
  }

  lemma KeptFirst(r: seq<PeerId>, front: seq<PeerId>, middle: seq<PeerId>, tail: seq<PeerId>, d: nat,
                  outbound: set<PeerId>)
    requires r == front + middle + tail && |front| <= d <= |front| + |middle|
    requires (forall p :: p in front ==> p in outbound) && forall p :: p in middle ==> p !in outbound
    ensures OutboundFirst(r[..d], |front|, middle, outbound)
  {
    hide Count;
    KeptCount(front, middle, d - |front|, outbound);
    assert r[..d] == front + middle[..d - |front|];
  }

  lemma KeptCount(front: seq<PeerId>, middle: seq<PeerId>, n: nat, outbound: set<PeerId>)
    requires n <= |middle|
    requires (forall p :: p in front ==> p in outbound) && forall p :: p in middle ==> p !in outbound
    ensures Count(front + middle[..n], outbound) == |front|
  {
    hide Count, Inbound;
    CountAll(front, outbound);
    forall p | p in middle[..n] ensures p !in outbound {
      assert p in middle;
    }
    CountAll(middle[..n], outbound);
    CountSplit(front, middle[..n], outbound);
  }

  /** If the tail holds no outbound peer, all of them are in front. */
  lemma TailOutsideFront(front: seq<PeerId>, middle: seq<PeerId>, tail: seq<PeerId>, outbound: set<PeerId>, d: nat)
    requires Count(tail, outbound) == 0 && forall p :: p in middle ==> p !in outbound
    requires |front| <= d <= |front| + |middle| + |tail|
    ensures Count((front + middle + tail)[..d], outbound) == Count(front + middle + tail, outbound)
  {
    var r := front + middle + tail;
    assert r == r[..d] + r[d..];
    CountSplit(r[..d], r[d..], outbound);
    CountAll(tail, outbound);
    forall p | p in r[d..] ensures p !in outbound {
      var j :| d <= j < |r| && r[j] == p;
      assert p in middle || p in tail;
    }
    CountAll(r[d..], outbound);
  }

  /** If the score quota and the outbound quota fit in d together, the dscore first peers, which
      are the best scoring ones, all survive the cut. */
  lemma KeepsTopScores(s: seq<PeerId>, outbound: set<PeerId>, d: nat, dout: nat, dscore: nat, i: nat)
    requires d <= |s| && dscore + dout <= d && i < dscore
    ensures s[i] in Arrange(s, outbound, d, dout)[..d]
  {
    var p := s[i];
    assert s[..d][i] == p;
    if Count(s[..d], outbound) < dout {
      var front, tail := ArrangeShape(s, outbound, d, dout);
      var r := Arrange(s, outbound, d, dout);
      if p in outbound {
        var k :| 0 <= k < |front| && front[k] == p;
        assert r[k] == p;
      } else {
        var k := InboundIndex(s[..d], outbound, i);
        assert r[|front| + k] == p;
      }
    }
  }

  lemma {:induction false} InboundIndex(s: seq<PeerId>, outbound: set<PeerId>, i: nat) returns (k: nat)
    requires i < |s| && s[i] !in outbound
    ensures k <= i && k < |Inbound(s, outbound)| && Inbound(s, outbound)[k] == s[i]
    decreases |s|
  {
    var init := s[..|s| - 1];
    if i == |s| - 1 {
      k := |Inbound(init, outbound)|;
    } else {
      k := InboundIndex(init, outbound, i);
    }
  }

  /** If the two quotas do not fit, every oversubscribed mesh has a set of outbound peers for which the
      dscore-th best peer is pruned: the peers behind it in the selection, and the first one outside. */
  lemma TopScoreCanBeCut(ps: seq<PeerId>, d: nat, dout: nat, dscore: nat)
    requires NoDup(ps) && 1 <= dscore <= d < |ps| && d < dscore + dout
    ensures ps[dscore - 1] !in Arrange(ps, Elems(ps[dscore..d + 1]), d, dout)[..d]
  {
    hide Arrange;
    var outbound := Elems(ps[dscore..d + 1]);
    OutboundStretch(ps, dscore, d);
    var front, tail := ArrangeShape(ps, outbound, d, dout);
    ArrangePermutes(ps, outbound, d, dout);
    FrontIsLong(front, ps[..dscore], tail, ps, outbound, d, dout);
    PushedOut(ps, front, tail, outbound, d, dscore);
  }

  /** Outbound peers from dscore to d: the selection keeps the others in front, and one more is outside. */
  lemma OutboundStretch(ps: seq<PeerId>, dscore: nat, d: nat)
    requires NoDup(ps) && dscore <= d < |ps|
    ensures var outbound := Elems(ps[dscore..d + 1]);
            && (forall p :: p in ps[..dscore] ==> p !in outbound)
            && Count(ps[..d], outbound) == d - dscore && Inbound(ps[..d], outbound) == ps[..dscore]
            && Count(ps[..dscore], outbound) == 0 && Count(ps, outbound) > d - dscore
  {
    hide Count, Inbound, NoDup, Elems;
    StretchMembers(ps, dscore, d);
    SelectedStretch(ps, Elems(ps[dscore..d + 1]), dscore, d);
    CountPrefix(ps, Elems(ps[dscore..d + 1]), d + 1);
    CountAt(ps, d, Elems(ps[dscore..d + 1]));
  }

  lemma SelectedStretch(ps: seq<PeerId>, outbound: set<PeerId>, dscore: nat, d: nat)
    requires dscore <= d < |ps|
    requires forall p :: p in ps[..dscore] ==> p !in outbound
    requires forall p :: p in ps[dscore..d] ==> p in outbound
    ensures Count(ps[..d], outbound) == d - dscore && Inbound(ps[..d], outbound) == ps[..dscore]
    ensures Count(ps[..dscore], outbound) == 0
  {
    hide Count, Inbound;
    var best, stretch := ps[..dscore], ps[dscore..d];
    CountAll(best, outbound);
    CountAll(stretch, outbound);
    assert ps[..d] == best + stretch;
    CountSplit(best, stretch, outbound);
    assert best + [] == best;
  }

  lemma CountPrefix(ps: seq<PeerId>, outbound: set<PeerId>, n: nat)
    requires n <= |ps|
    ensures Count(ps[..n], outbound) <= Count(ps, outbound)
  {
    hide Count, Inbound;
    CountSplit(ps[..n], ps[n..], outbound);
    assert ps == ps[..n] + ps[n..];
  }

  lemma StretchMembers(ps: seq<PeerId>, dscore: nat, d: nat)
    requires NoDup(ps) && dscore <= d < |ps|
    ensures var outbound := Elems(ps[dscore..d + 1]);
            && (forall p :: p in ps[..dscore] ==> p !in outbound)
            && (forall p :: p in ps[dscore..d] ==> p in outbound)
            && ps[d] in outbound
  {
    var out := ps[dscore..d + 1];
    forall p | p in ps[..dscore] ensures p !in Elems(out) {
      var j :| 0 <= j < dscore && ps[j] == p;
      assert forall k :: 0 <= k < |out| ==> out[k] == ps[dscore + k];
    }
    forall p | p in ps[dscore..d] ensures p in Elems(out) {
      var j :| 0 <= j < d - dscore && ps[dscore..d][j] == p;
      assert out[j] == p;
    }
    assert out[d - dscore] == ps[d];
  }

  /** The arrangement has dout outbound peers in front, or all there are. */
  lemma FrontIsLong(front: seq<PeerId>, kept: seq<PeerId>, tail: seq<PeerId>, ps: seq<PeerId>, outbound: set<PeerId>,
                    d: nat, dout: nat)
    requires SamePeers(front + kept + tail, ps, outbound) && Count(kept, outbound) == 0
    requires |front| == dout || Count(tail, outbound) == 0
    ensures |front| == dout || |front| >= Count(ps, outbound)
  {
    CountSplit(front + kept, tail, outbound);
    CountSplit(front, kept, outbound);
  }

  lemma PushedOut(ps: seq<PeerId>, front: seq<PeerId>, tail: seq<PeerId>, outbound: set<PeerId>, d: nat, dscore: nat)
    requires NoDup(ps) && 1 <= dscore <= d < |ps| && |front| > d - dscore
    requires |front| + dscore + |tail| >= d
    requires forall p :: p in front ==> p in outbound
    requires forall p :: p in ps[..dscore] ==> p !in outbound
    ensures ps[dscore - 1] !in (front + ps[..dscore] + tail)[..d]
  {
    var r := front + ps[..dscore] + tail;
    assert ps[..dscore][dscore - 1] == ps[dscore - 1];
    forall j | 0 <= j < d ensures r[j] != ps[dscore - 1] {
      if j < |front| {
        assert front[j] in front;
      } else {
        assert r[j] == ps[j - |front|];
      }
    }
  }

  /** The dscore best peers survive the cut, whichever peers are outbound. */
  ghost predicate KeepsBest(ps: seq<PeerId>, d: nat, dout: nat, dscore: nat)
    requires dscore <= d <= |ps|
  {
    forall outbound: set<PeerId>, i :: 0 <= i < dscore ==> ps[i] in Arrange(ps, outbound, d, dout)[..d]
  }

  /** In every oversubscribed mesh the best peers are safe if and only if the two quotas fit in d. */
  lemma KeepsTopScoresExactly(ps: seq<PeerId>, d: nat, dout: nat, dscore: nat)
    requires NoDup(ps) && dscore <= d < |ps|
    ensures KeepsBest(ps, d, dout, dscore) <==> dscore == 0 || dscore + dout <= d
  {
    hide Arrange;
    if dscore + dout <= d {
      forall outbound: set<PeerId>, i | 0 <= i < dscore ensures ps[i] in Arrange(ps, outbound, d, dout)[..d] {
        KeepsTopScores(ps, outbound, d, dout, dscore, i);
      }
    } else if dscore > 0 {
      TopScoreCanBeCut(ps, d, dout, dscore);
    }
  }

  // --------------------------------------------------------- the in-place code

  method RotateInPlace(plst: array<PeerId>, i: nat)
    requires i < plst.Length
    modifies plst
    ensures plst[..] == Rotate(old(plst[..]), i)
  {
    var p := plst[i];
    var j := i;
    while j > 0
      invariant 0 <= j <= i
      invariant forall k :: 0 <= k < j ==> plst[k] == old(plst[k])
      invariant forall k :: j < k <= i ==> plst[k] == old(plst[k - 1])
      invariant forall k :: i < k < plst.Length ==> plst[k] == old(plst[k])
    {
      plst[j] := plst[j - 1];
      j := j - 1;
    }
    plst[0] := p;
  }

  /** The code between counting the outbound peers and pruning: afterwards plst[..d] is kept. */
  method ArrangeInPlace(plst: array<PeerId>, outbound: set<PeerId>, d: nat, dout: nat)
    requires d <= plst.Length
    modifies plst
    ensures plst[..] == Arrange(old(plst[..]), outbound, d, dout)
  {
    ghost var orig := plst[..];
    var have := 0;
    for i := 0 to d
      invariant have == Count(orig[..i], outbound) && plst[..] == orig
    {
      CountAt(orig, i, outbound);
      if plst[i] in outbound {
        have := have + 1;
      }
    }
    if have < dout {
      if have > 0 {
        BubbleInPlace(plst, outbound, d, have);
      }
      BubbleUpPlace(plst, outbound, d, dout - have);
    }
  }

  method BubbleInPlace(plst: array<PeerId>, outbound: set<PeerId>, d: nat, have: nat)
    requires d <= plst.Length
    modifies plst
    ensures plst[..] == BubbleIn(old(plst[..]), outbound, 1, d, have)
  {
    var ihave, i := have, 1;
    while i < d && ihave > 0
      invariant 1 <= i && 0 <= ihave
      invariant BubbleIn(plst[..], outbound, i, d, ihave) == BubbleIn(old(plst[..]), outbound, 1, d, have)
      decreases d - i
    {
      var p := plst[i];
      if p in outbound {
        RotateInPlace(plst, i);
        ihave := ihave - 1;
      }
      i := i + 1;
    }
  }

  method BubbleUpPlace(plst: array<PeerId>, outbound: set<PeerId>, d: nat, need: nat)
    requires d <= plst.Length
    modifies plst
    ensures plst[..] == BubbleUp(old(plst[..]), outbound, d, need)
  {
    var ineed, i := need, d;
    while i < plst.Length && ineed > 0
      invariant d <= i <= plst.Length && 0 <= ineed
      invariant BubbleUp(plst[..], outbound, i, ineed) == BubbleUp(old(plst[..]), outbound, d, need)
      decreases plst.Length - i
    {
      var p := plst[i];
      if p in outbound {
        RotateInPlace(plst, i);
        ineed := ineed - 1;
      }
      i := i + 1;
    }
  }
}

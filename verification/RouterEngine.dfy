/** The router's handlers as code on mutable maps, proved to take the steps of `Router`. */
module RouterEngine {
  import opened Identifiers
  import opened SeqFacts
  import opened Bitmasks
  import opened PeerSelection
  import opened MeshHeartbeat
  import R = Router

  function Later(t: int, u: int): int {
    if t < u then u else t
  }

  /** What a message of GRAFTs leads to: the new state, the bitmasks to send a PRUNE for, whether those
      prunes offer other peers, and the penalty of the sender. */
  datatype Handled = Handled(state: R.State, prunes: seq<Bitmask>, px: bool, penalty: nat)

  /** All the GRAFTs of one message; `times[i]` is the clock when GRAFT i is handled. */
  function GraftMessage(c: Params, e: Env, s: R.State, p: PeerId, grafts: seq<Bitmask>, start: int, score: real,
                        times: seq<int>): (h: Handled)
    requires |times| == |grafts|
  {
    if grafts == [] then Handled(s, [], c.doPX, 0)
    else
      var k := |grafts| - 1;
      var h := GraftMessage(c, e, s, p, grafts[..k], start, score, times[..k]);
      var r := R.GraftOne(c, e, h.state.(now := Later(h.state.now, times[k])), p, grafts[k], start, score);
      Handled(r.state, if r.reply then h.prunes + [grafts[k]] else h.prunes, h.px && r.px, h.penalty + r.penalty)
  }

  /** A refused peer is offered other peers only if it was not penalised, is no direct peer and has no
      negative score; a refusal costs it at most two penalties. */
  lemma {:induction false} ExchangeIsEarned(c: Params, e: Env, s: R.State, p: PeerId, grafts: seq<Bitmask>, start: int,
                                            score: real, times: seq<int>)
    requires |times| == |grafts|
    ensures var h := GraftMessage(c, e, s, p, grafts, start, score, times);
            && (h.px ==> c.doPX && h.penalty == 0)
            && (h.px && h.prunes != [] ==> score >= 0.0 && p !in e.direct)
            && h.penalty <= 2 * |h.prunes|
  {
    hide R.AddBackoff, R.BackoffOf;
    if grafts != [] {
      var k := |grafts| - 1;
      ExchangeIsEarned(c, e, s, p, grafts[..k], start, score, times[..k]);
    }
  }

  // ------------------------------------------------ what a GRAFT message decides

  /** The bitmasks for which a PRUNE goes back, in the order of the message. */
  ghost function RefusedOf(c: Params, e: Env, s: R.State, p: PeerId, grafts: seq<Bitmask>, start: int, score: real):
      seq<Bitmask>
  {
    if grafts == [] then []
    else
      var k := |grafts| - 1;
      RefusedOf(c, e, s, p, grafts[..k], start, score)
      + if R.Refused(c, e, s, p, grafts[k], start, score) then [grafts[k]] else []
  }

  /** The sender has entered exactly the meshes named in the message for which it was acceptable before. */
  ghost predicate Entered(c: Params, e: Env, s: R.State, p: PeerId, grafts: seq<Bitmask>, start: int, score: real,
                          s': R.State)
  {
    && s'.mesh.Keys == s.mesh.Keys && s'.fanout == s.fanout
    && forall b :: b in s.mesh ==>
         s'.mesh[b] == s.mesh[b] + if b in grafts && R.Acceptable(c, e, s, p, b, start, score) then {p} else {}
  }

  /** The sender has a backoff where it was refused, unless it is a direct peer. */
  ghost predicate AllRecorded(c: Params, e: Env, s: R.State, p: PeerId, grafts: seq<Bitmask>, start: int, score: real,
                              s': R.State)
  {
    forall b :: Recorded(c, R.BackoffOf(s.backoff, b), R.BackoffOf(s'.backoff, b), p, start,
                         b in grafts && p !in e.direct && R.Refused(c, e, s, p, b, start, score))
  }

  /** What a message has done, in terms of the state before it. */
  ghost predicate Answered(c: Params, e: Env, s: R.State, p: PeerId, grafts: seq<Bitmask>, start: int, score: real,
                           h: Handled)
  {
    && Entered(c, e, s, p, grafts, start, score, h.state)
    && AllRecorded(c, e, s, p, grafts, start, score, h.state)
    && h.prunes == RefusedOf(c, e, s, p, grafts, start, score)
  }

  /** The entry of p is raised to at least a backoff from `start` if it is due, and nothing else changes. */
  ghost predicate Recorded(c: Params, bo: Expiries, bo': Expiries, p: PeerId, start: int, due: bool) {
    if !due then bo' == bo
    else
      && bo'.Keys == bo.Keys + {p} && bo'[p] >= start + c.pruneBackoff && (p in bo ==> bo'[p] >= bo[p])
      && forall q :: q in bo && q != p ==> bo'[q] == bo[q]
  }

  lemma SameBackoff(c: Params, e: Env, s: R.State, p: PeerId, grafts: seq<Bitmask>, start: int, score: real,
                    s': R.State, b: Bitmask)
    requires AllRecorded(c, e, s, p, grafts, start, score, s')
    ensures R.BackedOff(s, p, b, start) ==> R.BackedOff(s', p, b, start)
    ensures b !in grafts || !R.Refused(c, e, s, p, b, start, score) ==>
              (R.BackedOff(s', p, b, start) <==> R.BackedOff(s, p, b, start))
  {
    hide R.Refused, R.BackoffOf;
    assert Recorded(c, R.BackoffOf(s.backoff, b), R.BackoffOf(s'.backoff, b), p, start,
                    b in grafts && p !in e.direct && R.Refused(c, e, s, p, b, start, score));
  }

  /** In the middle of a message a bitmask is judged as it would have been before the message. */
  lemma SameJudgement(c: Params, e: Env, s: R.State, p: PeerId, grafts: seq<Bitmask>, start: int, score: real,
                      h: Handled, b: Bitmask)
    requires Answered(c, e, s, p, grafts, start, score, h)
    ensures b in s.mesh && p !in h.state.mesh[b] ==>
              && (R.Acceptable(c, e, h.state, p, b, start, score) <==> R.Acceptable(c, e, s, p, b, start, score))
              && (R.BackedOff(s, p, b, start) ==> R.BackedOff(h.state, p, b, start))
    ensures R.Refused(c, e, h.state, p, b, start, score) <==> R.Refused(c, e, s, p, b, start, score)
  {
    hide RefusedOf, AllRecorded, R.BackedOff;
    SameBackoff(c, e, s, p, grafts, start, score, h.state, b);
    if b in s.mesh && p !in h.state.mesh[b] {
      assert h.state.mesh[b] == s.mesh[b];
    }
  }

  lemma AnsweredNothing(c: Params, e: Env, s: R.State, p: PeerId, start: int, score: real)
    ensures Answered(c, e, s, p, [], start, score, Handled(s, [], c.doPX, 0))
  {
  }

  /** The same message and one GRAFT more. */
  ghost predicate OneMoreGraft(c: Params, e: Env, p: PeerId, b: Bitmask, start: int, score: real, h: Handled, t: int,
                               r: R.Grafting)
  {
    start <= t && r == R.GraftOne(c, e, h.state.(now := t), p, b, start, score)
  }

  lemma EnteredSet(before: set<PeerId>, mid: set<PeerId>, after: set<PeerId>, p: PeerId, done: bool, ok: bool,
                   okNow: bool)
    requires mid == before + (if done && ok then {p} else {}) && after == mid + (if okNow then {p} else {})
    requires p !in mid ==> (okNow <==> ok)
    ensures after == before + if ok then {p} else {}
  {
  }

  lemma EnteredAt(c: Params, e: Env, s: R.State, p: PeerId, grafts: seq<Bitmask>, start: int, score: real, h: Handled,
                  b: Bitmask, t: int, r: R.Grafting, b': Bitmask)
    requires Answered(c, e, s, p, grafts, start, score, h) && OneMoreGraft(c, e, p, b, start, score, h, t, r)
    requires b' in s.mesh && r.state.mesh.Keys == s.mesh.Keys
    ensures r.state.mesh[b'] == s.mesh[b']
              + if b' in grafts + [b] && R.Acceptable(c, e, s, p, b', start, score) then {p} else {}
  {
    hide RefusedOf, AllRecorded, R.GraftOne, R.Acceptable, R.Refused;
    R.GraftDecides(c, e, h.state.(now := t), p, b, start, score);
    if b' == b {
      SameJudgement(c, e, s, p, grafts, start, score, h, b);
      JudgedAtAnyTime(c, e, h.state, p, b, start, score, t);
      EnteredSet(s.mesh[b], h.state.mesh[b], r.state.mesh[b], p, b in grafts, R.Acceptable(c, e, s, p, b, start, score),
                 R.Acceptable(c, e, h.state.(now := t), p, b, start, score));
    } else {
      assert b' in grafts + [b] <==> b' in grafts;
    }
  }

  lemma EnteredNext(c: Params, e: Env, s: R.State, p: PeerId, grafts: seq<Bitmask>, start: int, score: real, h: Handled,
                    b: Bitmask, t: int, r: R.Grafting)
    requires Answered(c, e, s, p, grafts, start, score, h) && OneMoreGraft(c, e, p, b, start, score, h, t, r)
    ensures Entered(c, e, s, p, grafts + [b], start, score, r.state)
  {
    hide RefusedOf, AllRecorded, R.GraftOne, R.Acceptable;
    R.GraftDecides(c, e, h.state.(now := t), p, b, start, score);
    forall b' | b' in s.mesh
      ensures r.state.mesh[b'] == s.mesh[b']
              + if b' in grafts + [b] && R.Acceptable(c, e, s, p, b', start, score) then {p} else {}
    {
      EnteredAt(c, e, s, p, grafts, start, score, h, b, t, r, b');
    }
  }

  lemma JudgedAtAnyTime(c: Params, e: Env, s: R.State, p: PeerId, b: Bitmask, start: int, score: real, t: int)
    ensures R.Acceptable(c, e, s.(now := t), p, b, start, score) <==> R.Acceptable(c, e, s, p, b, start, score)
    ensures R.Refused(c, e, s.(now := t), p, b, start, score) <==> R.Refused(c, e, s, p, b, start, score)
    ensures R.BackedOff(s.(now := t), p, b, start) <==> R.BackedOff(s, p, b, start)
  {
  }

  lemma RecordedNext(c: Params, e: Env, s: R.State, p: PeerId, grafts: seq<Bitmask>, start: int, score: real,
                     h: Handled, b: Bitmask, t: int, r: R.Grafting)
    requires Answered(c, e, s, p, grafts, start, score, h) && OneMoreGraft(c, e, p, b, start, score, h, t, r)
    ensures AllRecorded(c, e, s, p, grafts + [b], start, score, r.state)
  {
    hide RefusedOf, Entered, R.GraftOne, R.BackoffOf, R.Acceptable, R.AddBackoff;
    var s1 := h.state.(now := t);
    R.GraftRecords(c, e, s1, p, b, start, score);
    R.GraftReplies(c, e, s1, p, b, start, score);
    R.AddBackoffExact(s1, b, p, c.pruneBackoff);
    SameJudgement(c, e, s, p, grafts, start, score, h, b);
    JudgedAtAnyTime(c, e, h.state, p, b, start, score, t);
    hide R.Refused;
    forall b' ensures Recorded(c, R.BackoffOf(s.backoff, b'), R.BackoffOf(r.state.backoff, b'), p, start,
                               b' in grafts + [b] && p !in e.direct && R.Refused(c, e, s, p, b', start, score))
    {
      assert Recorded(c, R.BackoffOf(s.backoff, b'), R.BackoffOf(h.state.backoff, b'), p, start,
                      b' in grafts && p !in e.direct && R.Refused(c, e, s, p, b', start, score));
    }
  }

  lemma RefusedNext(c: Params, e: Env, s: R.State, p: PeerId, grafts: seq<Bitmask>, start: int, score: real, b: Bitmask)
    ensures RefusedOf(c, e, s, p, grafts + [b], start, score)
            == RefusedOf(c, e, s, p, grafts, start, score) + if R.Refused(c, e, s, p, b, start, score) then [b] else []
  {
    assert (grafts + [b])[..|grafts|] == grafts;
  }

  lemma AnsweredNext(c: Params, e: Env, s: R.State, p: PeerId, grafts: seq<Bitmask>, start: int, score: real,
                     h: Handled, b: Bitmask, t: int, r: R.Grafting, px: bool, penalty: nat)
    requires Answered(c, e, s, p, grafts, start, score, h) && OneMoreGraft(c, e, p, b, start, score, h, t, r)
    ensures Answered(c, e, s, p, grafts + [b], start, score,
                     Handled(r.state, if r.reply then h.prunes + [b] else h.prunes, px, penalty))
  {
    hide Entered, AllRecorded, RefusedOf, R.Refused, R.GraftOne;
    EnteredNext(c, e, s, p, grafts, start, score, h, b, t, r);
    RecordedNext(c, e, s, p, grafts, start, score, h, b, t, r);
    RefusedNext(c, e, s, p, grafts, start, score, b);
    R.GraftReplies(c, e, h.state.(now := t), p, b, start, score);
    SameJudgement(c, e, s, p, grafts, start, score, h, b);
    JudgedAtAnyTime(c, e, h.state, p, b, start, score, t);
  }

  /** A whole GRAFT message decides every bitmask by the state before it, whatever the order of its GRAFTs and
      however often a bitmask is named in it. */
  lemma {:induction false} GraftMessageDecides(c: Params, e: Env, s: R.State, p: PeerId, grafts: seq<Bitmask>,
                                               start: int, score: real, times: seq<int>)
    requires start <= s.now && |times| == |grafts|
    ensures var h := GraftMessage(c, e, s, p, grafts, start, score, times);
            Answered(c, e, s, p, grafts, start, score, h) && start <= h.state.now
  {
    hide Answered, R.GraftOne;
    if grafts == [] {
      AnsweredNothing(c, e, s, p, start, score);
    } else {
      var k := |grafts| - 1;
      GraftMessageDecides(c, e, s, p, grafts[..k], start, score, times[..k]);
      var h := GraftMessage(c, e, s, p, grafts[..k], start, score, times[..k]);
      var t := Later(h.state.now, times[k]);
      var r := R.GraftOne(c, e, h.state.(now := t), p, grafts[k], start, score);
      R.GraftDecides(c, e, h.state.(now := t), p, grafts[k], start, score);
      var h' := GraftMessage(c, e, s, p, grafts, start, score, times);
      AnsweredNext(c, e, s, p, grafts[..k], start, score, h, grafts[k], t, r, h'.px, h'.penalty);
      assert grafts[..k] + [grafts[k]] == grafts;
    }
  }

  /** A GRAFT that loses the sender its peer exchange, by the state before the message. */
  ghost predicate Offends(c: Params, e: Env, s: R.State, p: PeerId, b: Bitmask, start: int, score: real) {
    e.allowed(p, b) && (b in s.mesh ==>
      R.Refused(c, e, s, p, b, start, score) && (p in e.direct || R.BackedOff(s, p, b, start) || score < 0.0))
  }

  lemma OffenceIsSeen(c: Params, e: Env, s: R.State, p: PeerId, grafts: seq<Bitmask>, start: int, score: real,
                      h: Handled, b: Bitmask, t: int, r: R.Grafting)
    requires Answered(c, e, s, p, grafts, start, score, h) && OneMoreGraft(c, e, p, b, start, score, h, t, r)
    ensures Offends(c, e, s, p, b, start, score) ==> !r.px
    ensures b !in grafts && !r.px ==> Offends(c, e, s, p, b, start, score)
  {
    hide RefusedOf, R.GraftOne, R.BackoffOf, R.Acceptable;
    var s1 := h.state.(now := t);
    R.GraftPenalises(c, e, s1, p, b, start, score);
    R.GraftReplies(c, e, s1, p, b, start, score);
    SameJudgement(c, e, s, p, grafts, start, score, h, b);
    JudgedAtAnyTime(c, e, h.state, p, b, start, score, t);
    assert Recorded(c, R.BackoffOf(s.backoff, b), R.BackoffOf(h.state.backoff, b), p, start,
                    b in grafts && p !in e.direct && R.Refused(c, e, s, p, b, start, score));
  }

  /** Peer exchange is offered only if no GRAFT of the message offends; and it is offered then, if the router
      does peer exchange and no bitmask is named twice. */
  lemma {:induction false} ExchangeDecides(c: Params, e: Env, s: R.State, p: PeerId, grafts: seq<Bitmask>, start: int,
                                           score: real, times: seq<int>)
    requires start <= s.now && |times| == |grafts|
    ensures var px := GraftMessage(c, e, s, p, grafts, start, score, times).px;
            && (px ==> c.doPX && forall b :: b in grafts ==> !Offends(c, e, s, p, b, start, score))
            && (c.doPX && NoDup(grafts) && (forall b :: b in grafts ==> !Offends(c, e, s, p, b, start, score)) ==> px)
  {
    hide Answered, R.GraftOne, Offends;
    if grafts != [] {
      var k := |grafts| - 1;
      ExchangeDecides(c, e, s, p, grafts[..k], start, score, times[..k]);
      GraftMessageDecides(c, e, s, p, grafts[..k], start, score, times[..k]);
      var h := GraftMessage(c, e, s, p, grafts[..k], start, score, times[..k]);
      var t := Later(h.state.now, times[k]);
      var r := R.GraftOne(c, e, h.state.(now := t), p, grafts[k], start, score);
      OffenceIsSeen(c, e, s, p, grafts[..k], start, score, h, grafts[k], t, r);
      assert grafts[..k] + [grafts[k]] == grafts;
      assert NoDup(grafts) ==> NoDup(grafts[..k]) && grafts[k] !in grafts[..k];
    }
  }

  /** One PRUNE as received: the backoff is in seconds, and `peers` are offered in its place. */
  datatype ControlPrune = ControlPrune(bitmask: Bitmask, backoff: nat, peers: seq<PeerId>)

  function PruneMessage(c: Params, s: R.State, p: PeerId, prunes: seq<ControlPrune>, times: seq<int>): (r: R.State)
    requires |times| == |prunes|
    ensures r.mesh.Keys == s.mesh.Keys
  {
    if prunes == [] then s
    else
      var k := |prunes| - 1;
      var s1 := PruneMessage(c, s, p, prunes[..k], times[..k]);
      R.PruneOne(c, s1.(now := Later(s1.now, times[k])), p, prunes[k].bitmask, prunes[k].backoff)
  }

  /** The backoff that a PRUNE makes due. */
  function Interval(c: Params, prune: ControlPrune): int {
    if prune.backoff > 0 then R.Seconds(prune.backoff) else c.pruneBackoff
  }

  ghost predicate Named(prunes: seq<ControlPrune>, b: Bitmask) {
    exists i :: 0 <= i < |prunes| && prunes[i].bitmask == b
  }

  /** What PRUNEs have done to one bitmask that is joined, or not. */
  ghost predicate PrunedOn(c: Params, s: R.State, p: PeerId, prunes: seq<ControlPrune>, s': R.State, b: Bitmask) {
    var bo, bo' := R.BackoffOf(s.backoff, b), R.BackoffOf(s'.backoff, b);
    var due := b in s.mesh && Named(prunes, b);
    && (b in s'.mesh <==> b in s.mesh)
    && (b in s.mesh ==> s'.mesh[b] == if due then s.mesh[b] - {p} else s.mesh[b])
    && (!due ==> bo' == bo)
    && (due ==> bo'.Keys == bo.Keys + {p} && (p in bo ==> bo'[p] >= bo[p]))
    && (forall q :: q in bo && q != p ==> q in bo' && bo'[q] == bo[q])
    && (b in s.mesh ==> forall i :: 0 <= i < |prunes| && prunes[i].bitmask == b ==>
          p in bo' && bo'[p] >= s.now + Interval(c, prunes[i]))
  }

  lemma PrunedOnNothing(c: Params, s: R.State, p: PeerId, b: Bitmask)
    ensures PrunedOn(c, s, p, [], s, b)
  {
  }

  lemma PrunedOnNext(c: Params, s: R.State, p: PeerId, prunes: seq<ControlPrune>, s1: R.State, t: int,
                     prune: ControlPrune, b: Bitmask)
    requires PrunedOn(c, s, p, prunes, s1, b) && s.now <= t && (prune.bitmask in s1.mesh <==> prune.bitmask in s.mesh)
    ensures PrunedOn(c, s, p, prunes + [prune], R.PruneOne(c, s1.(now := t), p, prune.bitmask, prune.backoff), b)
  {
    hide R.Seconds;
    var all := prunes + [prune];
    assert all[|prunes|] == prune && forall i :: 0 <= i < |prunes| ==> all[i] == prunes[i];
    NamedNext(prunes, prune, b);
    hide Named;
    PruneOnce(c, s1.(now := t), p, prune);
    hide R.PruneOne, R.BackoffOf, Interval;
  }

  lemma NamedNext(prunes: seq<ControlPrune>, prune: ControlPrune, b: Bitmask)
    ensures Named(prunes + [prune], b) <==> Named(prunes, b) || prune.bitmask == b
    ensures forall i :: 0 <= i < |prunes| && prunes[i].bitmask == b ==> Named(prunes, b)
  {
    var all := prunes + [prune];
    assert all[|prunes|] == prune && forall i :: 0 <= i < |prunes| ==> all[i] == prunes[i];
  }

  lemma PruneOnce(c: Params, s: R.State, p: PeerId, prune: ControlPrune)
    ensures var s' := R.PruneOne(c, s, p, prune.bitmask, prune.backoff);
            var b := prune.bitmask;
            && s'.mesh.Keys == s.mesh.Keys && R.OtherBackoffsSame(s, s', b)
            && (forall b' :: b' in s.mesh && b' != b ==> s'.mesh[b'] == s.mesh[b'])
            && (b !in s.mesh ==> s' == s)
            && (b in s.mesh ==>
                  var bo, bo' := R.BackoffOf(s.backoff, b), R.BackoffOf(s'.backoff, b);
                  && s'.mesh[b] == s.mesh[b] - {p} && bo'.Keys == bo.Keys + {p}
                  && bo'[p] >= s.now + Interval(c, prune) && (p in bo ==> bo'[p] >= bo[p])
                  && forall q :: q in bo && q != p ==> bo'[q] == bo[q])
  {
    hide R.Seconds;
    if prune.bitmask in s.mesh {
      var b := prune.bitmask;
      R.AddBackoffExact(s.(mesh := s.mesh[b := s.mesh[b] - {p}]), b, p, Interval(c, prune));
    }
  }

  /** A whole PRUNE message takes its sender out of exactly the joined meshes it names, and records there at
      least every backoff that was asked for; nobody else is touched. */
  lemma {:induction false} PruneMessageDecides(c: Params, s: R.State, p: PeerId, prunes: seq<ControlPrune>,
                                               times: seq<int>, b: Bitmask)
    requires |times| == |prunes|
    ensures var s' := PruneMessage(c, s, p, prunes, times);
            PrunedOn(c, s, p, prunes, s', b) && s.now <= s'.now && s'.fanout == s.fanout
  {
    hide PrunedOn, R.Seconds;
    if prunes == [] {
      PrunedOnNothing(c, s, p, b);
    } else {
      var k := |prunes| - 1;
      PruneMessageDecides(c, s, p, prunes[..k], times[..k], b);
      var s1 := PruneMessage(c, s, p, prunes[..k], times[..k]);
      var t := Later(s1.now, times[k]);
      PrunedOnNext(c, s, p, prunes[..k], s1, t, prunes[k], b);
      R.PruneTakesOnlyTheSender(c, s1.(now := t), p, prunes[k].bitmask, prunes[k].backoff);
      assert prunes[..k] + [prunes[k]] == prunes;
    }
  }

  /** The offers of other peers that are followed: those for bitmasks that are joined. */
  function Offers(joined: set<Bitmask>, prunes: seq<ControlPrune>): (offers: seq<seq<PeerId>>)
    ensures forall ps :: ps in offers <==>
              ps != [] && exists i :: 0 <= i < |prunes| && prunes[i].bitmask in joined && prunes[i].peers == ps
  {
    if prunes == [] then []
    else
      var k := |prunes| - 1;
      var offers := Offers(joined, prunes[..k]);
      assert prunes == prunes[..k] + [prunes[k]];
      if prunes[k].bitmask in joined && prunes[k].peers != [] then offers + [prunes[k].peers] else offers
  }

  lemma LaterIs(t: int, u: int)
    requires t <= u
    ensures Later(t, u) == u
  {
  }

  lemma GraftNothing(c: Params, e: Env, s: R.State, p: PeerId, grafts: seq<Bitmask>, start: int, score: real)
    ensures GraftMessage(c, e, s, p, grafts[..0], start, score, []) == Handled(s, [], c.doPX, 0)
  {
  }

  lemma GraftNext(c: Params, e: Env, s: R.State, p: PeerId, grafts: seq<Bitmask>, i: nat, start: int, score: real,
                  times: seq<int>, t: int)
    requires i < |grafts| && |times| == i
    ensures var h := GraftMessage(c, e, s, p, grafts[..i], start, score, times);
            var r := R.GraftOne(c, e, h.state.(now := Later(h.state.now, t)), p, grafts[i], start, score);
            GraftMessage(c, e, s, p, grafts[..i + 1], start, score, times + [t])
            == Handled(r.state, if r.reply then h.prunes + [grafts[i]] else h.prunes,
                       h.px && r.px, h.penalty + r.penalty)
  {
    hide R.GraftOne;
    assert grafts[..i + 1][..i] == grafts[..i];
    assert (times + [t])[..i] == times;
  }

  lemma PruneNothing(c: Params, s: R.State, p: PeerId, prunes: seq<ControlPrune>)
    ensures PruneMessage(c, s, p, prunes[..0], []) == s && Offers(s.mesh.Keys, prunes[..0]) == []
  {
  }

  lemma PruneNext(c: Params, s: R.State, p: PeerId, prunes: seq<ControlPrune>, i: nat, times: seq<int>, t: int)
    requires i < |prunes| && |times| == i
    ensures var s1 := PruneMessage(c, s, p, prunes[..i], times);
            PruneMessage(c, s, p, prunes[..i + 1], times + [t])
            == R.PruneOne(c, s1.(now := Later(s1.now, t)), p, prunes[i].bitmask, prunes[i].backoff)
    ensures Offers(s.mesh.Keys, prunes[..i + 1]) == Offers(s.mesh.Keys, prunes[..i])
              + if prunes[i].bitmask in s.mesh && prunes[i].peers != [] then [prunes[i].peers] else []
  {
    hide R.PruneOne;
    assert prunes[..i + 1][..i] == prunes[..i];
    assert (times + [t])[..i] == times;
  }

  lemma PruneUnknown(c: Params, s: R.State, p: PeerId, b: Bitmask, seconds: nat)
    requires b !in s.mesh
    ensures R.PruneOne(c, s, p, b, seconds) == s && s.(now := s.now) == s
  {
  }

  lemma TickSafe(s: R.State, t: int)
    requires R.Safe(s) && s.now <= t
    ensures R.Safe(s.(now := t)) && R.Keeps(s, s.(now := t))
  {
  }

  /** Handling a whole GRAFT message keeps every backoff respected, however late it is handled. */
  lemma {:induction false} GraftMessageSafe(c: Params, e: Env, s: R.State, p: PeerId, grafts: seq<Bitmask>, start: int,
                                            score: real, times: seq<int>)
    requires R.Safe(s) && start <= s.now && |times| == |grafts|
    ensures var s' := GraftMessage(c, e, s, p, grafts, start, score, times).state;
            R.Safe(s') && R.Keeps(s, s') && s.now <= s'.now
  {
    hide R.Safe, R.GraftOne;
    if grafts == [] {
      TickSafe(s, s.now);
      assert s.(now := s.now) == s;
    } else {
      var k := |grafts| - 1;
      GraftMessageSafe(c, e, s, p, grafts[..k], start, score, times[..k]);
      var s1 := GraftMessage(c, e, s, p, grafts[..k], start, score, times[..k]).state;
      var t := Later(s1.now, times[k]);
      TickSafe(s1, t);
      R.GraftOneSafe(c, e, s1.(now := t), p, grafts[k], start, score);
      R.KeepsTransitive(s, s1, s1.(now := t));
      R.KeepsTransitive(s, s1.(now := t), R.GraftOne(c, e, s1.(now := t), p, grafts[k], start, score).state);
    }
  }

  /** Handling a whole PRUNE message keeps every backoff respected. */
  lemma {:induction false} PruneMessageSafe(c: Params, s: R.State, p: PeerId, prunes: seq<ControlPrune>,
                                            times: seq<int>)
    requires R.Safe(s) && |times| == |prunes|
    ensures var s' := PruneMessage(c, s, p, prunes, times); R.Safe(s') && R.Keeps(s, s')
  {
    hide R.Safe, R.PruneOne;
    if prunes == [] {
      TickSafe(s, s.now);
      assert s.(now := s.now) == s;
    } else {
      var k := |prunes| - 1;
      PruneMessageSafe(c, s, p, prunes[..k], times[..k]);
      var s1 := PruneMessage(c, s, p, prunes[..k], times[..k]);
      var t := Later(s1.now, times[k]);
      TickSafe(s1, t);
      R.PruneOneSafe(c, s1.(now := t), p, prunes[k].bitmask, prunes[k].backoff);
      R.KeepsTransitive(s, s1, s1.(now := t));
      R.KeepsTransitive(s, s1.(now := t), R.PruneOne(c, s1.(now := t), p, prunes[k].bitmask, prunes[k].backoff));
    }
  }

  /** What happened to one bitmask in a heartbeat: its mesh before and after. */
  datatype Turn = Turn(before: Mesh, after: Mesh)

  class BlossomSubRouter {
    const c: Params
    var mesh: map<Bitmask, set<PeerId>>
    var fanout: map<Bitmask, set<PeerId>>
    var lastpub: map<Bitmask, int>
    var backoff: map<Bitmask, Expiries>
    var now: int

    ghost function View(): R.State
      reads this
    {
      R.State(mesh, fanout, backoff, now)
    }

    constructor (c: Params)
      ensures this.c == c && View().mesh == map[] && View().fanout == map[] && View().backoff == map[]
      ensures lastpub == map[]
    {
      this.c := c;
      mesh, fanout, lastpub, backoff, now := map[], map[], map[], map[], 0;
    }

    method Now() returns (t: int)
      modifies this`now
      ensures t == now >= old(now)
    {
      t := Advance(now);
      now := t;
    }

    method DoAddBackoff(p: PeerId, b: Bitmask, interval: int)
      modifies this`now, this`backoff
      ensures now >= old(now)
      ensures View() == R.AddBackoff(old(View()).(now := now), b, p, interval)
    {
      var bo := if b in backoff then backoff[b] else map[];
      var t := Now();
      if p !in bo || bo[p] < t + interval {
        bo := bo[p := t + interval];
      }
      backoff := backoff[b := bo];
    }

    method GraftOne(e: Env, p: PeerId, b: Bitmask, start: int, score: real)
        returns (reply: bool, px: bool, penalty: nat)
      modifies this`mesh, this`backoff, this`now
      ensures now >= old(now)
      ensures R.Grafting(View(), reply, px, penalty) == R.GraftOne(c, e, old(View()).(now := now), p, b, start, score)
      ensures reply <==> R.Refused(c, e, old(View()).(now := now), p, b, start, score)
      ensures mesh.Keys == old(mesh).Keys && forall b' :: b' in mesh && b' != b ==> mesh[b'] == old(mesh)[b']
      ensures b in mesh ==>
                var taken := R.Acceptable(c, e, old(View()).(now := now), p, b, start, score);
                mesh[b] == old(mesh)[b] + if taken then {p} else {}
    {
      reply, px, penalty := false, true, 0;
      if !e.allowed(p, b) {
      } else if b !in mesh {
        px := false;
      } else if p in mesh[b] {
      } else if p in e.direct {
        reply, px := true, false;
      } else if b in backoff && p in backoff[b] && start < backoff[b][p] {
        reply, px, penalty := true, false, 1;
        if start < backoff[b][p] + (c.graftFloodThreshold - c.pruneBackoff) {
          penalty := penalty + 1;
        }
        DoAddBackoff(p, b, c.pruneBackoff);
      } else if score < 0.0 {
        reply, px := true, false;
        DoAddBackoff(p, b, c.pruneBackoff);
      } else if |mesh[b]| >= c.Dhi && p !in e.outbound {
        reply := true;
        DoAddBackoff(p, b, c.pruneBackoff);
      } else {
        mesh := mesh[b := mesh[b] + {p}];
      }
      ghost var was := old(View()).(now := now);
      assert R.Grafting(View(), reply, px, penalty) == R.GraftOne(c, e, was, p, b, start, score);
      hide R.GraftOne, R.Acceptable, R.Refused;
      R.GraftDecides(c, e, was, p, b, start, score);
      R.GraftReplies(c, e, was, p, b, start, score);
    }

    method HandleGraft(e: Env, p: PeerId, grafts: seq<Bitmask>, score: real)
        returns (prune: seq<Bitmask>, px: bool, penalty: nat, ghost start: int, ghost times: seq<int>)
      modifies this`mesh, this`backoff, this`now
      ensures start >= old(now) && |times| == |grafts|
      ensures Handled(View(), prune, px, penalty)
              == GraftMessage(c, e, old(View()).(now := start), p, grafts, start, score, times)
      ensures Answered(c, e, old(View()).(now := start), p, grafts, start, score, Handled(View(), prune, px, penalty))
    {
      hide R.GraftOne, GraftMessage, Later, Answered;
      var t := Now();
      start, times, prune, px, penalty := t, [], [], c.doPX, 0;
      ghost var s := View();
      GraftNothing(c, e, s, p, grafts, t, score);
      for i := 0 to |grafts|
        invariant |times| == i
        invariant Handled(View(), prune, px, penalty) == GraftMessage(c, e, s, p, grafts[..i], start, score, times)
      {
        ghost var s1 := View();
        var reply, stillPX, extra := GraftOne(e, p, grafts[i], t, score);
        GraftNext(c, e, s, p, grafts, i, start, score, times, now);
        LaterIs(s1.now, now);
        times := times + [now];
        px, penalty := px && stillPX, penalty + extra;
        if reply {
          prune := prune + [grafts[i]];
        }
      }
      assert grafts[..|grafts|] == grafts;
      GraftMessageDecides(c, e, s, p, grafts, start, score, times);
    }

    /** `offers` are the lists of peers that `pxConnect` is called with. */
    method HandlePrune(p: PeerId, prunes: seq<ControlPrune>, score: real)
        returns (offers: seq<seq<PeerId>>, ghost times: seq<int>)
      modifies this`mesh, this`backoff, this`now
      ensures |times| == |prunes|
      ensures View() == PruneMessage(c, old(View()), p, prunes, times)
      ensures offers == if score < c.acceptPXThreshold then [] else Offers(old(mesh).Keys, prunes)
    {
      hide R.PruneOne, PruneMessage, Offers, Later;
      times, offers := [], [];
      ghost var s := View();
      PruneNothing(c, s, p, prunes);
      for i := 0 to |prunes|
        invariant |times| == i
        invariant View() == PruneMessage(c, s, p, prunes[..i], times)
        invariant offers == if score < c.acceptPXThreshold then [] else Offers(s.mesh.Keys, prunes[..i])
      {
        ghost var s1 := View();
        var b := prunes[i].bitmask;
        if b !in mesh {
          PruneUnknown(c, s1, p, b, prunes[i].backoff);
        } else {
          PruneOne(p, b, prunes[i].backoff);
          if prunes[i].peers != [] && score >= c.acceptPXThreshold {
            offers := offers + [prunes[i].peers];
          }
        }
        PruneNext(c, s, p, prunes, i, times, now);
        LaterIs(s1.now, now);
        times := times + [now];
      }
      assert prunes[..|prunes|] == prunes;
    }

    method PruneOne(p: PeerId, b: Bitmask, seconds: nat)
      requires b in mesh
      modifies this`mesh, this`backoff, this`now
      ensures now >= old(now)
      ensures View() == R.PruneOne(c, old(View()).(now := now), p, b, seconds)
    {
      if p in mesh[b] {
        mesh := mesh[b := mesh[b] - {p}];
      }
      assert mesh[b] == old(mesh)[b] - {p};
      assert mesh == old(mesh)[b := mesh[b]];
      DoAddBackoff(p, b, if seconds > 0 then R.Seconds(seconds) else c.pruneBackoff);
    }

    method RemovePeer(p: PeerId)
      modifies this`mesh, this`fanout
      ensures View() == R.RemovePeer(old(View()), p)
      ensures mesh.Keys == old(mesh).Keys && fanout.Keys == old(fanout).Keys
      ensures forall b, q :: b in mesh ==> (q in mesh[b] <==> q in old(mesh)[b] && q != p)
      ensures forall b, q :: b in fanout ==> (q in fanout[b] <==> q in old(fanout)[b] && q != p)
    {
      mesh := DeletePeer(mesh, p);
      fanout := DeletePeer(fanout, p);
    }

    /** The peer is deleted from the peers of one bitmask after the other. */
    static method DeletePeer(all: map<Bitmask, set<PeerId>>, p: PeerId) returns (m: map<Bitmask, set<PeerId>>)
      ensures m == R.Without(all, p)
    {
      m := all;
      var rest := all.Keys;
      while rest != {}
        invariant rest <= m.Keys == all.Keys
        invariant forall b :: b in m ==> m[b] == if b in rest then all[b] else all[b] - {p}
        decreases |rest|
      {
        var b :| b in rest;
        m := m[b := m[b] - {p}];
        rest := rest - {b};
      }
    }

    /** The expired entries of one bitmask are deleted, and then the bitmask if none are left. */
    method ClearBitmask(b: Bitmask, t: int)
      requires b in backoff
      modifies this`backoff
      ensures var bo := R.Unexpired(old(backoff)[b], t);
              backoff == if bo == map[] then old(backoff) - {b} else old(backoff)[b := bo]
    {
      ghost var all := backoff[b];
      var bo, rest := backoff[b], backoff[b].Keys;
      while rest != {}
        invariant rest <= bo.Keys <= all.Keys && forall p :: p in bo ==> bo[p] == all[p]
        invariant forall p :: p in all && p !in rest ==> (p in bo <==> all[p] + R.SLACK >= t)
        decreases |rest|
      {
        var p :| p in rest;
        if bo[p] + R.SLACK < t {
          bo := bo - {p};
        }
        rest := rest - {p};
      }
      assert bo == R.Unexpired(all, t);
      backoff := if bo == map[] then backoff - {b} else backoff[b := bo];
    }

    method ClearBackoff(tick: nat)
      modifies this`backoff, this`now
      ensures now >= old(now)
      ensures View() == if tick % 15 == 0 then R.ClearBackoff(old(View()).(now := now)) else old(View())
      ensures tick % 15 == 0 ==> R.OnlyExpiredCleared(old(backoff), backoff, now)
    {
      if tick % 15 != 0 {
        return;
      }
      hide R.Unexpired, ClearedBut;
      var t := Now();
      var rest := backoff.Keys;
      ClearedNone(backoff, t);
      while rest != {}
        invariant now == t && ClearedBut(old(backoff), backoff, rest, t)
        decreases |rest|
      {
        var b :| b in rest;
        ghost var before := backoff;
        ClearedOneMore(old(backoff), before, rest, b, t);
        ClearBitmask(b, t);
        rest := rest - {b};
      }
      ClearedAll(old(View()).(now := t), backoff, t);
      R.ClearBackoffExact(old(View()).(now := t));
    }

    method Leave(b: Bitmask)
      modifies this`mesh, this`backoff, this`now
      ensures R.Leave(c, old(View()), View(), b)
    {
      hide Leaving, R.Leave, R.AddBackoff;
      ghost var s := View();
      if b !in mesh {
        LeftNothing(c, s, b);
        return;
      }
      var gmap := mesh[b];
      mesh := mesh - {b};
      var rest, done := gmap, {};
      LeavingStarts(c, s, b);
      while rest != {}
        invariant rest !! done && rest + done == gmap && Leaving(c, s, View(), b, done)
        decreases |rest|
      {
        var p :| p in rest;
        ghost var s1 := View();
        DoAddBackoff(p, b, c.unsubscribeBackoff);
        LeavingOneMore(c, s, s1, View(), b, done, p);
        rest, done := rest - {p}, done + {p};
      }
      assert done == gmap;
      LeavingEnds(c, s, View(), b);
    }

    /** The fanout peers that `Join` keeps. */
    method Survivors(b: Bitmask, score: PeerId -> real) returns (kept: set<PeerId>)
      ensures kept == R.Welcome(View(), b, score)
    {
      var bo := if b in backoff then backoff[b] else map[];
      kept := {};
      if b in fanout {
        kept := fanout[b];
        var rest := kept;
        while rest != {}
          invariant rest <= kept <= fanout[b]
          invariant forall p :: p in fanout[b] && p !in rest ==> (p in kept <==> p !in bo && score(p) >= 0.0)
          decreases |rest|
        {
          var p :| p in rest;
          if score(p) < 0.0 || p in bo {
            kept := kept - {p};
          }
          rest := rest - {p};
        }
      }
    }

    /** Who joins the fanout peers that were kept. */
    method MoreForJoin(e: Env, b: Bitmask, kept: set<PeerId>, score: PeerId -> real) returns (more: seq<PeerId>)
      ensures if b !in fanout || |kept| < c.D
              then IsSelection(Elems(more), Pool(e, Slices(b), Candidate(e, kept, R.BackoffOf(backoff, b), score)),
                               if |kept| < c.D then c.D - |kept| else 0)
              else more == []
    {
      hide IsSelection, Pool, Candidate, Slices, Elems, NoDup;
      more := [];
      if b !in fanout || |kept| < c.D {
        var bo := R.BackoffOf(backoff, b);
        more := GetPeers(e, b, if |kept| < c.D then c.D - |kept| else 0, Candidate(e, kept, bo, score));
      }
    }

    method Join(e: Env, b: Bitmask, first: PeerId -> real, second: PeerId -> real)
      modifies this`mesh, this`fanout, this`lastpub
      ensures R.Join(c, e, old(View()), View(), b, first, second)
      ensures lastpub == if b !in old(mesh) && b in old(fanout) then old(lastpub) - {b} else old(lastpub)
    {
      hide R.Join, R.Welcome, R.BackoffOf, IsSelection, Pool, Candidate, Slices, Elems, NoDup;
      ghost var s := View();
      if b in mesh {
        JoinedAlready(c, e, s, b, first, second);
        return;
      }
      var kept := Survivors(b, first);
      var more := MoreForJoin(e, b, kept, second);
      mesh := mesh[b := kept + Elems(more)];
      if b in fanout {
        lastpub := lastpub - {b};
      }
      fanout := fanout - {b};
      JoinsNow(c, e, s, b, first, second, more);
    }

    /** The mesh of one bitmask is read, maintained and written back. */
    method BeatOne(e: Env, tick: nat, b: Bitmask, score: PeerId -> real) returns (m: Mesh)
      requires Sane(c) && b in mesh
      modifies this`mesh, this`backoff, this`now
      ensures R.Beat(c, e, old(View()), View(), b, m, score)
    {
      hide Maintained;
      var bo := if b in backoff then backoff[b] else map[];
      m := MaintainMesh(c, e, b, tick, Mesh(mesh[b], bo, now, map[], {}, {}), score);
      mesh := mesh[b := m.peers];
      now := m.now;
      if b in backoff || m.bo != map[] {
        backoff := backoff[b := m.bo];
      }
    }

    /** Expired backoffs are cleared, then every mesh is maintained once, with one cached score per peer
        for the whole heartbeat. */
    method MaintainMeshes(e: Env, tick: nat, score: PeerId -> real)
        returns (tograft: set<(PeerId, Bitmask)>, toprune: set<(PeerId, Bitmask)>, noPX: set<PeerId>,
                 ghost turns: map<Bitmask, Turn>)
      requires Sane(c) && R.Safe(View())
      modifies this`mesh, this`backoff, this`now
      ensures R.Safe(View()) && R.Keeps(old(View()), View())
      ensures turns.Keys == mesh.Keys == old(mesh).Keys
      ensures AllMaintained(c, e, old(View()), View(), turns, score)
      ensures Tally(tograft, toprune, turns) && NoExchange(noPX, toprune, score)
    {
      hide R.Safe, R.Keeps, R.Beat, Maintained, Beating, AllMaintained, Tally, NoExchange, R.MeshAt;
      ghost var s := View();
      ClearBackoff(tick);
      ClearKeeps(s, View(), tick);
      var rest := mesh.Keys;
      tograft, toprune, noPX, turns := {}, {}, {}, map[];
      BeatingStarts(c, e, s, View(), score);
      TallyStarts(score);
      while rest != {}
        invariant Beating(c, e, s, View(), rest, turns, score)
        invariant Tally(tograft, toprune, turns) && NoExchange(noPX, toprune, score)
        decreases |rest|
      {
        var b :| b in rest;
        ghost var s1 := View();
        BeatingHas(c, e, s, s1, rest, turns, score, b);
        var m := BeatOne(e, tick, b, score);
        BeatingOneMore(c, e, s, s1, View(), rest, turns, score, b, m);
        TallyOneMore(tograft, toprune, turns, b, Turn(R.MeshAt(s1, b), m));
        NoExchangeOneMore(noPX, toprune, m.pruned, b, score);
        tograft := tograft + OnBitmask(m.grafted, b);
        toprune := toprune + OnBitmask(m.pruned, b);
        noPX := noPX + set p | p in m.pruned && score(p) < 0.0;
        turns := turns[b := Turn(R.MeshAt(s1, b), m)];
        rest := rest - {b};
      }
      BeatingEnds(c, e, s, View(), turns, score);
    }

    /** The fanout of a bitmask is dropped a while after the last message was published to it. */
    method ExpireFanout()
      modifies this`fanout, this`lastpub, this`now
      ensures now >= old(now)
      ensures var expired := Expired(old(lastpub), c.fanoutTTL, now);
              fanout == old(fanout) - expired && lastpub == old(lastpub) - expired
      ensures forall b :: b in fanout <==>
                b in old(fanout) && (b in old(lastpub) ==> now <= old(lastpub)[b] + c.fanoutTTL)
    {
      var t := Now();
      var rest := lastpub.Keys;
      ExpiredNone(fanout, lastpub, c.fanoutTTL, t);
      while rest != {}
        invariant now == t && ExpiredBut(old(fanout), old(lastpub), fanout, lastpub, rest, c.fanoutTTL, t)
        decreases |rest|
      {
        var b :| b in rest;
        ghost var f, l := fanout, lastpub;
        ExpiredOneMore(old(fanout), old(lastpub), f, l, rest, b, c.fanoutTTL, t);
        if lastpub[b] + c.fanoutTTL < t {
          fanout, lastpub := fanout - {b}, lastpub - {b};
        }
        rest := rest - {b};
      }
      ExpiredAll(old(fanout), old(lastpub), fanout, lastpub, c.fanoutTTL, t);
    }

    /** The fanout peers that are still subscribed and whose score is high enough. */
    method CheckFanout(e: Env, b: Bitmask, all: set<PeerId>, score: PeerId -> real) returns (peers: set<PeerId>)
      ensures peers == StillGood(c, e, b, all, score)
    {
      peers := all;
      var rest := all;
      while rest != {}
        invariant rest <= peers <= all
        invariant forall p :: p in all && p !in rest ==> (p in peers <==> p in StillGood(c, e, b, all, score))
        decreases |rest|
      {
        var p :| p in rest;
        if b !in e.subscribers || p !in e.subscribers[b] || score(p) < c.publishThreshold {
          peers := peers - {p};
        }
        rest := rest - {p};
      }
    }

    /** The fanout peers of one bitmask are checked, and more are looked for if they are fewer than D. */
    method MaintainFanout(e: Env, b: Bitmask, score: PeerId -> real)
      requires b in fanout
      modifies this`fanout
      ensures b in fanout && fanout == old(fanout)[b := fanout[b]]
      ensures FanoutMaintained(c, e, b, old(fanout)[b], fanout[b], score)
    {
      hide Pool, Slices, FanoutCandidate, Elems, NoDup, StillGood, IsSelection;
      var kept := CheckFanout(e, b, fanout[b], score);
      var more: seq<PeerId> := [];
      if |kept| < c.D {
        more := GetPeers(e, b, c.D - |kept|, FanoutCandidate(c, e, kept, score));
      }
      NewFanout(c, e, b, kept, more, score);
      fanout := fanout[b := kept + Elems(more)];
    }

    method MaintainFanouts(e: Env, score: PeerId -> real)
      modifies this`fanout
      ensures fanout.Keys == old(fanout).Keys
      ensures forall b :: b in fanout ==> FanoutMaintained(c, e, b, old(fanout)[b], fanout[b], score)
    {
      hide FanoutMaintained;
      var rest := fanout.Keys;
      while rest != {}
        invariant rest <= fanout.Keys == old(fanout).Keys
        invariant forall b :: b in rest ==> fanout[b] == old(fanout)[b]
        invariant forall b :: b in fanout && b !in rest ==> FanoutMaintained(c, e, b, old(fanout)[b], fanout[b], score)
        decreases |rest|
      {
        var b :| b in rest;
        MaintainFanout(e, b, score);
        rest := rest - {b};
      }
    }

    /** One heartbeat: the meshes are maintained, old fanout is dropped and the rest is maintained. */
    method Heartbeat(e: Env, tick: nat, score: PeerId -> real)
        returns (tograft: set<(PeerId, Bitmask)>, toprune: set<(PeerId, Bitmask)>, noPX: set<PeerId>,
                 ghost turns: map<Bitmask, Turn>)
      requires Sane(c) && R.Safe(View())
      modifies this
      ensures R.Safe(View()) && R.Keeps(old(View()), View())
      ensures turns.Keys == mesh.Keys == old(mesh).Keys
      ensures AllMaintained(c, e, old(View()), View(), turns, score)
      ensures Tally(tograft, toprune, turns) && NoExchange(noPX, toprune, score)
      ensures tograft !! toprune
      ensures var expired := Expired(old(lastpub), c.fanoutTTL, now);
              && lastpub == old(lastpub) - expired && fanout.Keys == old(fanout).Keys - expired
              && forall b :: b in fanout ==> FanoutMaintained(c, e, b, old(fanout)[b], fanout[b], score)
    {
      hide R.Safe, R.Keeps, Maintained, AllMaintained, Tally, NoExchange, FanoutMaintained;
      tograft, toprune, noPX, turns := MaintainMeshes(e, tick, score);
      NeverBoth(c, e, old(View()), View(), score, tograft, toprune, turns);
      ghost var s1 := View();
      ExpireFanout();
      MaintainFanouts(e, score);
      FanoutStepKeeps(c, e, old(View()), s1, View(), turns, score);
    }
  }

  /** The bitmasks whose last message is older than the time to live. */
  function Expired(lastpub: map<Bitmask, int>, ttl: int, now: int): set<Bitmask> {
    set b | b in lastpub && lastpub[b] + ttl < now
  }

  /** The fanout peers that still subscribe to the bitmask and score well enough to publish to. */
  ghost function StillGood(c: Params, e: Env, b: Bitmask, peers: set<PeerId>, score: PeerId -> real): set<PeerId> {
    set p | p in peers && b in e.subscribers && p in e.subscribers[b] && score(p) >= c.publishThreshold
  }

  function FanoutCandidate(c: Params, e: Env, peers: set<PeerId>, score: PeerId -> real): PeerId -> bool {
    p => p !in peers && p !in e.direct && score(p) >= c.publishThreshold
  }

  /** The good fanout peers stay, and they are filled up to D as far as there are candidates. */
  ghost predicate FanoutMaintained(c: Params, e: Env, b: Bitmask, before: set<PeerId>, after: set<PeerId>,
                                   score: PeerId -> real)
  {
    var kept := StillGood(c, e, b, before, score);
    && kept <= after
    && if |kept| < c.D
       then IsSelection(after - kept, Pool(e, Slices(b), FanoutCandidate(c, e, kept, score)), c.D - |kept|)
       else after == kept
  }

  /** The bitmasks of `rest` have still to be checked for an old last message. */
  ghost predicate ExpiredBut(f0: map<Bitmask, set<PeerId>>, l0: map<Bitmask, int>, f: map<Bitmask, set<PeerId>>,
                             l: map<Bitmask, int>, rest: set<Bitmask>, ttl: int, t: int)
  {
    var gone := Expired(l0, ttl, t) - rest;
    rest <= l0.Keys && f == f0 - gone && l == l0 - gone
  }

  lemma ExpiredNone(f: map<Bitmask, set<PeerId>>, l: map<Bitmask, int>, ttl: int, t: int)
    ensures ExpiredBut(f, l, f, l, l.Keys, ttl, t)
  {
    assert Expired(l, ttl, t) - l.Keys == {};
  }

  lemma ExpiredOneMore(f0: map<Bitmask, set<PeerId>>, l0: map<Bitmask, int>, f: map<Bitmask, set<PeerId>>,
                       l: map<Bitmask, int>, rest: set<Bitmask>, b: Bitmask, ttl: int, t: int)
    requires ExpiredBut(f0, l0, f, l, rest, ttl, t) && b in rest
    ensures b in l && l[b] == l0[b]
    ensures var old_ := l0[b] + ttl < t;
            ExpiredBut(f0, l0, if old_ then f - {b} else f, if old_ then l - {b} else l, rest - {b}, ttl, t)
  {
    var gone := Expired(l0, ttl, t);
    assert gone - (rest - {b}) == gone - rest + if l0[b] + ttl < t then {b} else {};
  }

  lemma ExpiredAll(f0: map<Bitmask, set<PeerId>>, l0: map<Bitmask, int>, f: map<Bitmask, set<PeerId>>,
                   l: map<Bitmask, int>, ttl: int, t: int)
    requires ExpiredBut(f0, l0, f, l, {}, ttl, t)
    ensures f == f0 - Expired(l0, ttl, t) && l == l0 - Expired(l0, ttl, t)
  {
    assert Expired(l0, ttl, t) - {} == Expired(l0, ttl, t);
  }

  lemma NewFanout(c: Params, e: Env, b: Bitmask, kept: set<PeerId>, more: seq<PeerId>, score: PeerId -> real)
    requires forall p :: p in more ==> FanoutCandidate(c, e, kept, score)(p)
    ensures kept + Elems(more) - kept == Elems(more)
    ensures more == [] ==> kept + Elems(more) == kept
  {
    forall p | p in Elems(more) ensures p !in kept {
      assert p in more;
    }
  }

  /** Fanout peers never fall below the publish threshold, and are at most D unless more were there. */
  lemma FanoutIsGood(c: Params, e: Env, b: Bitmask, before: set<PeerId>, after: set<PeerId>, score: PeerId -> real)
    requires FanoutMaintained(c, e, b, before, after, score)
    ensures forall p :: p in after ==> score(p) >= c.publishThreshold
    ensures |after| <= c.D || after <= before
  {
    hide Pool, Slices, FanoutCandidate;
    var kept := StillGood(c, e, b, before, score);
    assert after == kept + (after - kept);
    FanoutScores(c, e, b, kept, score);
  }

  /** Every fanout peer that still subscribes and scores well enough stays, and no other peer of it does unless
      it is chosen anew. Below D, everybody is taken who is available and scores well enough. */
  lemma FanoutTakes(c: Params, e: Env, b: Bitmask, before: set<PeerId>, after: set<PeerId>, score: PeerId -> real,
                    p: PeerId)
    requires FanoutMaintained(c, e, b, before, after, score)
    ensures p in before && b in e.subscribers && p in e.subscribers[b] && score(p) >= c.publishThreshold ==> p in after
    ensures |after| < c.D && Available(e, b, p) && p !in e.direct && score(p) >= c.publishThreshold ==> p in after
    ensures p in after && (p !in before || b !in e.subscribers || p !in e.subscribers[b]) ==>
              p !in e.direct && p in e.meshCapable
  {
    hide Pool, Slices, Available, IsSelection;
    var kept := StillGood(c, e, b, before, score);
    var f := FanoutCandidate(c, e, kept, score);
    assert after == kept + (after - kept) && |after| == |kept| + |after - kept|;
    FanoutNew(c, e, b, kept, after, score, p);
    if |after| < c.D && Available(e, b, p) && f(p) {
      NobodyPassedOver(e, b, f, after - kept, c.D - |kept|, p);
    }
  }

  lemma FanoutNew(c: Params, e: Env, b: Bitmask, kept: set<PeerId>, after: set<PeerId>, score: PeerId -> real,
                  p: PeerId)
    requires if |kept| < c.D
             then IsSelection(after - kept, Pool(e, Slices(b), FanoutCandidate(c, e, kept, score)), c.D - |kept|)
             else after == kept
    ensures p in after && p !in kept ==> p !in e.direct && p in e.meshCapable
  {
    hide Pool, Slices;
    var f := FanoutCandidate(c, e, kept, score);
    PoolFiltered(e, Slices(b), f);
    if p in after - kept {
      assert f(p);
    }
  }

  lemma FanoutScores(c: Params, e: Env, b: Bitmask, kept: set<PeerId>, score: PeerId -> real)
    ensures forall p :: p in Pool(e, Slices(b), FanoutCandidate(c, e, kept, score)) ==> score(p) >= c.publishThreshold
  {
    hide Pool, Slices;
    var f := FanoutCandidate(c, e, kept, score);
    PoolFiltered(e, Slices(b), f);
    forall p | p in Pool(e, Slices(b), f) ensures score(p) >= c.publishThreshold {
      assert f(p);
    }
  }

  lemma FanoutStepKeeps(c: Params, e: Env, s: R.State, s1: R.State, s2: R.State, turns: map<Bitmask, Turn>,
                        score: PeerId -> real)
    requires Sane(c) && R.Safe(s1) && R.Keeps(s, s1) && AllMaintained(c, e, s, s1, turns, score)
    requires s2 == s1.(fanout := s2.fanout, now := s2.now) && s2.now >= s1.now
    ensures R.Safe(s2) && R.Keeps(s, s2) && AllMaintained(c, e, s, s2, turns, score)
  {
    hide Maintained;
  }

  /** `ClearBackoff` has still to visit the bitmasks of `rest`. */
  ghost predicate ClearedBut(was: map<Bitmask, Expiries>, cur: map<Bitmask, Expiries>, rest: set<Bitmask>, t: int) {
    && cur.Keys <= was.Keys && rest <= cur.Keys
    && (forall b :: b in rest ==> cur[b] == was[b])
    && (forall b :: b in was && b !in rest ==> (b in cur <==> R.Unexpired(was[b], t) != map[]))
    && (forall b :: b in cur && b !in rest ==> cur[b] == R.Unexpired(was[b], t))
  }

  lemma ClearedNone(was: map<Bitmask, Expiries>, t: int)
    ensures ClearedBut(was, was, was.Keys, t)
  {
  }

  lemma ClearedOneMore(was: map<Bitmask, Expiries>, cur: map<Bitmask, Expiries>, rest: set<Bitmask>, b: Bitmask, t: int)
    requires ClearedBut(was, cur, rest, t) && b in rest
    ensures b in cur
    ensures var bo := R.Unexpired(cur[b], t);
            ClearedBut(was, if bo == map[] then cur - {b} else cur[b := bo], rest - {b}, t)
  {
    hide R.Unexpired;
  }

  lemma ClearedAll(s: R.State, cur: map<Bitmask, Expiries>, t: int)
    requires ClearedBut(s.backoff, cur, {}, t) && s.now == t
    ensures s.(backoff := cur) == R.ClearBackoff(s)
  {
    hide R.Unexpired;
  }

  /** `Leave` has removed the mesh and backed off the peers in `done`. */
  ghost predicate Leaving(c: Params, s: R.State, s': R.State, b: Bitmask, done: set<PeerId>) {
    && s'.mesh == s.mesh - {b} && s'.fanout == s.fanout && R.OtherBackoffsSame(s, s', b)
    && Raised(R.BackoffOf(s.backoff, b), R.BackoffOf(s'.backoff, b), done, s.now, s'.now, c.unsubscribeBackoff)
  }

  lemma LeftNothing(c: Params, s: R.State, b: Bitmask)
    requires b !in s.mesh
    ensures R.Leave(c, s, s, b)
  {
  }

  lemma LeavingStarts(c: Params, s: R.State, b: Bitmask)
    ensures Leaving(c, s, s.(mesh := s.mesh - {b}), b, {})
  {
  }

  lemma LeavingOneMore(c: Params, s: R.State, s1: R.State, s2: R.State, b: Bitmask, done: set<PeerId>, p: PeerId)
    requires Leaving(c, s, s1, b, done) && p !in done && s1.now <= s2.now
    requires s2 == R.AddBackoff(s1.(now := s2.now), b, p, c.unsubscribeBackoff)
    ensures Leaving(c, s, s2, b, done + {p})
  {
    hide Raised, AddExpiry;
    RaisedOneMore(R.BackoffOf(s.backoff, b), R.BackoffOf(s1.backoff, b), done, p, s.now, s1.now, s2.now,
                  c.unsubscribeBackoff);
  }

  lemma LeavingEnds(c: Params, s: R.State, s': R.State, b: Bitmask)
    requires b in s.mesh && Leaving(c, s, s', b, s.mesh[b])
    ensures R.Leave(c, s, s', b)
  {
  }

  lemma JoinedAlready(c: Params, e: Env, s: R.State, b: Bitmask, first: PeerId -> real, second: PeerId -> real)
    requires b in s.mesh
    ensures R.Join(c, e, s, s, b, first, second)
  {
  }

  lemma JoinsNow(c: Params, e: Env, s: R.State, b: Bitmask, first: PeerId -> real, second: PeerId -> real,
                 more: seq<PeerId>)
    requires b !in s.mesh
    requires var kept := R.Welcome(s, b, first);
             var f := Candidate(e, kept, R.BackoffOf(s.backoff, b), second);
             if b !in s.fanout || |kept| < c.D
             then IsSelection(Elems(more), Pool(e, Slices(b), f), if |kept| < c.D then c.D - |kept| else 0)
             else more == []
    ensures var m := R.Welcome(s, b, first) + Elems(more);
            R.Join(c, e, s, s.(mesh := s.mesh[b := m], fanout := s.fanout - {b}), b, first, second)
  {
    hide R.Welcome, Pool, Slices, Candidate, R.BackoffOf;
    var kept := R.Welcome(s, b, first);
    if b !in s.fanout || |kept| < c.D {
      Newcomers(e, b, kept, R.BackoffOf(s.backoff, b), second, more, if |kept| < c.D then c.D - |kept| else 0);
    } else {
      assert kept + Elems([]) == kept;
    }
  }

  lemma Newcomers(e: Env, b: Bitmask, kept: set<PeerId>, bo: Expiries, score: PeerId -> real, more: seq<PeerId>, n: nat)
    requires IsSelection(Elems(more), Pool(e, Slices(b), Candidate(e, kept, bo, score)), n)
    ensures kept + Elems(more) - kept == Elems(more)
  {
    hide Pool, Slices;
    var f := Candidate(e, kept, bo, score);
    PoolFiltered(e, Slices(b), f);
    forall p | p in Elems(more) ensures p !in kept {
      assert f(p);
    }
  }

  /** The heartbeat has still to maintain the meshes of `rest`. */
  ghost predicate Beating(c: Params, e: Env, s: R.State, s': R.State, rest: set<Bitmask>, turns: map<Bitmask, Turn>,
                          score: PeerId -> real)
    requires Sane(c)
  {
    && R.Safe(s') && R.Keeps(s, s') && s'.fanout == s.fanout
    && s'.mesh.Keys == s.mesh.Keys && rest <= s.mesh.Keys && turns.Keys == s.mesh.Keys - rest
    && (forall b :: b in rest ==> s'.mesh[b] == s.mesh[b])
    && AllMaintained(c, e, s, s', turns, score)
  }

  ghost predicate AllMaintained(c: Params, e: Env, s: R.State, s': R.State, turns: map<Bitmask, Turn>,
                                score: PeerId -> real)
    requires Sane(c)
  {
    forall b :: b in turns ==>
      && Maintained(c, e, b, turns[b].before, turns[b].after, score)
      && b in s.mesh && b in s'.mesh && turns[b].before.peers == s.mesh[b] && s'.mesh[b] == turns[b].after.peers
  }

  lemma BeatingStarts(c: Params, e: Env, s: R.State, s': R.State, score: PeerId -> real)
    requires Sane(c) && R.Safe(s') && R.Keeps(s, s') && s'.mesh == s.mesh && s'.fanout == s.fanout
    ensures Beating(c, e, s, s', s'.mesh.Keys, map[], score)
  {
    hide R.Safe, R.Keeps;
  }

  lemma BeatingHas(c: Params, e: Env, s: R.State, s': R.State, rest: set<Bitmask>, turns: map<Bitmask, Turn>,
                   score: PeerId -> real, b: Bitmask)
    requires Sane(c) && Beating(c, e, s, s', rest, turns, score) && b in rest
    ensures b in s'.mesh && b !in turns
  {
    hide R.Safe, R.Keeps, AllMaintained;
  }

  lemma BeatingOneMore(c: Params, e: Env, s: R.State, s1: R.State, s2: R.State, rest: set<Bitmask>,
                       turns: map<Bitmask, Turn>, score: PeerId -> real, b: Bitmask, m: Mesh)
    requires Sane(c) && Beating(c, e, s, s1, rest, turns, score) && b in rest && b in s1.mesh
    requires R.Beat(c, e, s1, s2, b, m, score)
    ensures Beating(c, e, s, s2, rest - {b}, turns[b := Turn(R.MeshAt(s1, b), m)], score)
  {
    hide R.Safe, R.Keeps, Maintained, AllMaintained;
    R.BeatSafe(c, e, s1, s2, b, m, score);
    R.KeepsTransitive(s, s1, s2);
    AllMaintainedOneMore(c, e, s, s1, s2, turns, score, b, m);
  }

  lemma AllMaintainedOneMore(c: Params, e: Env, s: R.State, s1: R.State, s2: R.State, turns: map<Bitmask, Turn>,
                             score: PeerId -> real, b: Bitmask, m: Mesh)
    requires Sane(c) && AllMaintained(c, e, s, s1, turns, score) && b !in turns
    requires b in s.mesh && b in s1.mesh && s1.mesh[b] == s.mesh[b] && s2.mesh == s1.mesh[b := m.peers]
    requires Maintained(c, e, b, R.MeshAt(s1, b), m, score)
    ensures AllMaintained(c, e, s, s2, turns[b := Turn(R.MeshAt(s1, b), m)], score)
  {
    hide Maintained;
  }

  lemma BeatingEnds(c: Params, e: Env, s: R.State, s': R.State, turns: map<Bitmask, Turn>, score: PeerId -> real)
    requires Sane(c) && Beating(c, e, s, s', {}, turns, score)
    ensures R.Safe(s') && R.Keeps(s, s') && AllMaintained(c, e, s, s', turns, score)
    ensures turns.Keys == s'.mesh.Keys == s.mesh.Keys && s'.fanout == s.fanout
  {
    hide R.Safe, R.Keeps, AllMaintained;
  }

  /** The graft and prune lists record exactly what each turn did. */
  ghost predicate Tally(tograft: set<(PeerId, Bitmask)>, toprune: set<(PeerId, Bitmask)>, turns: map<Bitmask, Turn>) {
    && (forall x :: x in tograft <==> x.1 in turns && x.0 in turns[x.1].after.grafted)
    && (forall x :: x in toprune <==> x.1 in turns && x.0 in turns[x.1].after.pruned)
  }

  function OnBitmask(ps: set<PeerId>, b: Bitmask): (r: set<(PeerId, Bitmask)>)
    ensures forall x :: x in r <==> x.0 in ps && x.1 == b
  {
    set p | p in ps :: (p, b)
  }

  lemma TallyOneMore(tograft: set<(PeerId, Bitmask)>, toprune: set<(PeerId, Bitmask)>, turns: map<Bitmask, Turn>,
                     b: Bitmask, t: Turn)
    requires Tally(tograft, toprune, turns) && b !in turns
    ensures Tally(tograft + OnBitmask(t.after.grafted, b), toprune + OnBitmask(t.after.pruned, b), turns[b := t])
  {
    hide OnBitmask;
  }

  /** The peers to whom no other peers are offered are those pruned with a negative score. */
  ghost predicate NoExchange(noPX: set<PeerId>, toprune: set<(PeerId, Bitmask)>, score: PeerId -> real) {
    forall p :: p in noPX <==> score(p) < 0.0 && exists b :: (p, b) in toprune
  }

  lemma NoExchangeOneMore(noPX: set<PeerId>, toprune: set<(PeerId, Bitmask)>, pruned: set<PeerId>, b: Bitmask,
                          score: PeerId -> real)
    requires NoExchange(noPX, toprune, score)
    ensures NoExchange(noPX + (set p | p in pruned && score(p) < 0.0), toprune + OnBitmask(pruned, b), score)
  {
    hide OnBitmask;
    var toprune' := toprune + OnBitmask(pruned, b);
    forall p ensures (exists b' :: (p, b') in toprune') <==> (exists b' :: (p, b') in toprune) || p in pruned {
      if p in pruned {
        assert (p, b) in toprune';
      }
      if b' :| (p, b') in toprune {
        assert (p, b') in toprune';
      }
    }
  }

  lemma TallyStarts(score: PeerId -> real)
    ensures Tally({}, {}, map[]) && NoExchange({}, {}, score)
  {
  }

  /** One heartbeat never both grafts and prunes the same peer on the same bitmask. */
  lemma NeverBoth(c: Params, e: Env, s: R.State, s': R.State, score: PeerId -> real,
                  tograft: set<(PeerId, Bitmask)>, toprune: set<(PeerId, Bitmask)>, turns: map<Bitmask, Turn>)
    requires Sane(c) && Tally(tograft, toprune, turns) && AllMaintained(c, e, s, s', turns, score)
    ensures tograft !! toprune
  {
    hide Books, RightlyPruned, AllNonNegative, Pool, Candidate, FilledAndQuota;
    forall x | x in tograft ensures x !in toprune {
      assert x.1 in turns && Maintained(c, e, x.1, turns[x.1].before, turns[x.1].after, score);
    }
  }

  lemma ClearKeeps(s: R.State, s': R.State, tick: nat)
    requires R.Safe(s) && s'.now >= s.now
    requires s' == if tick % 15 == 0 then R.ClearBackoff(s.(now := s'.now)) else s
    ensures R.Safe(s') && R.Keeps(s, s')
  {
    hide R.Safe;
    TickSafe(s, s'.now);
    if tick % 15 == 0 {
      R.ClearBackoffSafe(s.(now := s'.now));
      R.KeepsTransitive(s, s.(now := s'.now), s');
    } else {
      assert s.(now := s'.now) == s;
    }
  }
}

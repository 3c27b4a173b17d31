/** Waiting for ADD_PROVIDER RPCs: completions over a bounded channel, leases from a shared pool, and
    the close of the channel (go-libp2p-kad-dht/lookup_optim.go). */
module OptimisticProvide {

  /** `rpcs` is the number of issued RPCs, `threshold` the capacity of doneChan and the number of
      completions to wait for, `poolSize` the capacity of the job pool shared with other lookups. */
  datatype Config = Config(rpcs: nat, threshold: nat, poolSize: nat)

  /** `waitForRPCs` first collects completions and then has `left` iterations to do. */
  datatype Waiter = Collecting | Leasing(left: nat)

  /** `pending` RPCs have not reported yet, `queued` reports are in doneChan, `done` is putProvDone.
      A consumer goroutine waits for a report, then holds only its lease, then has released it; a
      goroutine that counted the last report is a closer until it has closed doneChan. */
  datatype State = State(
    pending: nat, queued: nat, done: nat, waiter: Waiter,
    waiting: nat, holding: nat, released: nat, closers: nat,
    leased: nat, others: nat, closed: bool, panicked: bool)

  /** returnThreshold, lowered to the number of RPCs. */
  function Quorum(c: Config): nat {
    if c.threshold > c.rpcs then c.rpcs else c.threshold
  }

  function Init(c: Config): State {
    State(c.rpcs, 0, 0, Collecting, 0, 0, 0, 0, 0, 0, false, false)
  }

  datatype Event =
    | Report                     // putProviderRecord sends on doneChan
    | Collect                    // the waiter receives in its first loop
    | Lease | Receive            // the two cases of the waiter's select
    | Consume | Release | Count  // the three steps of consumeDoneChan
    | Close
    | OtherLeases | OtherReleases

  /** A send on a closed channel is possible and panics; a receive from one returns at once. */
  predicate Enabled(c: Config, s: State, ev: Event) {
    && !s.panicked
    && match ev
       case Report => s.pending > 0 && (s.closed || s.queued < c.threshold)
       case Collect => s.waiter.Collecting? && (s.closed || s.queued > 0)
       case Lease => s.waiter.Leasing? && s.waiter.left > 0 && s.leased + s.others < c.poolSize
       case Receive => s.waiter.Leasing? && s.waiter.left > 0 && (s.closed || s.queued > 0)
       case Consume => s.waiting > 0 && (s.closed || s.queued > 0)
       case Release => s.holding > 0 && s.leased + s.others > 0
       case Count => s.released > 0
       case Close => s.closers > 0
       case OtherLeases => s.leased + s.others < c.poolSize
       case OtherReleases => s.others > 0
  }

  function Taken(s: State): State {
    if s.queued > 0 then s.(queued := s.queued - 1) else s
  }

  /** One more completion counted; whoever counts the last one goes on to close. */
  function Counted(c: Config, s: State): State {
    s.(done := s.done + 1, closers := if s.done + 1 == c.rpcs then s.closers + 1 else s.closers)
  }

  function Next(c: Config, s: State, ev: Event): State
    requires Enabled(c, s, ev)
  {
    match ev
    case Report => if s.closed then s.(panicked := true) else s.(pending := s.pending - 1, queued := s.queued + 1)
    case Collect =>
      var t := Taken(s).(done := s.done + 1);
      if t.done == Quorum(c) then t.(waiter := Leasing(if c.rpcs > t.done then c.rpcs - t.done else 0)) else t
    case Lease => s.(leased := s.leased + 1, waiting := s.waiting + 1, waiter := Leasing(s.waiter.left - 1))
    case Receive => Counted(c, Taken(s)).(waiter := Leasing(s.waiter.left - 1))
    case Consume => Taken(s).(waiting := s.waiting - 1, holding := s.holding + 1)
    case Release =>
      if s.leased > 0 then s.(leased := s.leased - 1, holding := s.holding - 1, released := s.released + 1)
      else s.(others := s.others - 1, holding := s.holding - 1, released := s.released + 1)
    case Count => Counted(c, s.(released := s.released - 1))
    case Close => if s.closed then s.(panicked := true) else s.(closed := true, closers := s.closers - 1)
    case OtherLeases => s.(others := s.others + 1)
    case OtherReleases => s.(others := s.others - 1)
  }

  predicate Own(ev: Event) {
    !ev.OtherLeases? && !ev.OtherReleases?
  }

  /** Everybody is finished. */
  predicate Final(s: State) {
    && s.waiter.Leasing? && s.waiter.left == 0
    && s.pending == s.queued == 0 && s.waiting == s.holding == s.released == s.closers == 0
  }

  // ----------------------------------------------------------- the invariant

  /** Every completion is somewhere: not reported, queued, or received and on its way to be counted. */
  ghost predicate Conserved(c: Config, s: State) {
    s.pending + s.queued + s.done + s.holding + s.released == c.rpcs
  }

  ghost predicate Leases(c: Config, s: State) {
    s.leased == s.waiting + s.holding && s.leased + s.others <= c.poolSize
  }

  ghost predicate Closing(c: Config, s: State) {
    && (s.closed || s.closers > 0 ==> s.done == c.rpcs)
    && s.closers + One(s.closed) == One(s.done == c.rpcs > Quorum(c))
  }

  ghost predicate Phase(c: Config, s: State) {
    match s.waiter
    case Collecting =>
      s.waiting == s.holding == s.released == 0 && (s.done < Quorum(c) || Quorum(c) == 0)
    case Leasing(left) =>
      && Quorum(c) <= s.done
      && left + s.waiting + s.holding + s.released + s.done == c.rpcs
  }

  ghost predicate Inv(c: Config, s: State) {
    && Conserved(c, s) && Leases(c, s) && Closing(c, s) && Phase(c, s)
    && s.queued <= c.threshold && !s.panicked
  }

  lemma InitInv(c: Config)
    requires c.threshold > 0
    ensures Inv(c, Init(c))
  {
  }

  function Rank(c: Config, s: State): nat {
    5 * s.pending + 4 * s.queued + s.waiting + 3 * s.holding + 2 * s.released + s.closers
    + match s.waiter { case Collecting => 2 * c.rpcs + 1 case Leasing(left) => 2 * left }
  }

  function One(b: bool): nat {
    if b then 1 else 0
  }

  /** The events that take a completion out of doneChan. */
  predicate Receives(ev: Event) {
    ev.Collect? || ev.Receive? || ev.Consume?
  }

  /** The invariant is kept, what the event did is accounted for, and an own step comes nearer the end. */
  ghost predicate Moves(c: Config, s: State, ev: Event, s': State) {
    && Inv(c, s')
    && s'.done + s'.holding + s'.released == s.done + s.holding + s.released + One(Receives(ev))
    && s'.leased + One(ev.Release?) == s.leased + One(ev.Lease?)
    && One(s'.closed) == One(s.closed) + One(ev.Close?)
    && Rank(c, s') + One(Own(ev)) <= Rank(c, s)
  }

  /** Once doneChan is closed there is nothing to send and nobody to receive. */
  lemma ClosedIsQuiet(c: Config, s: State)
    requires Inv(c, s) && s.done == c.rpcs
    ensures s.pending == s.queued == s.waiting == s.holding == s.released == 0
    ensures s.waiter.Leasing? ==> s.waiter.left == 0
  {
  }

  lemma ReceivingMoves(c: Config, s: State, ev: Event)
    requires c.threshold > 0 && Inv(c, s) && Enabled(c, s, ev) && Receives(ev)
    ensures Moves(c, s, ev, Next(c, s, ev))
  {
    if s.done == c.rpcs {
      ClosedIsQuiet(c, s);
    }
  }

  lemma CountingMoves(c: Config, s: State, ev: Event)
    requires c.threshold > 0 && Inv(c, s) && Enabled(c, s, ev) && (ev.Count? || ev.Close? || ev.Release?)
    ensures Moves(c, s, ev, Next(c, s, ev))
  {
    if s.done == c.rpcs {
      ClosedIsQuiet(c, s);
    }
  }

  lemma OtherMoves(c: Config, s: State, ev: Event)
    requires c.threshold > 0 && Inv(c, s) && Enabled(c, s, ev)
    requires ev.Report? || ev.Lease? || ev.OtherLeases? || ev.OtherReleases?
    ensures Moves(c, s, ev, Next(c, s, ev))
  {
    if s.done == c.rpcs {
      ClosedIsQuiet(c, s);
    }
  }

  lemma NextMoves(c: Config, s: State, ev: Event)
    requires c.threshold > 0 && Inv(c, s) && Enabled(c, s, ev)
    ensures Moves(c, s, ev, Next(c, s, ev))
  {
    hide Inv, Enabled, Next, Moves;
    if Receives(ev) {
      ReceivingMoves(c, s, ev);
    } else if ev.Count? || ev.Close? || ev.Release? {
      CountingMoves(c, s, ev);
    } else {
      OtherMoves(c, s, ev);
    }
  }

  // --------------------------------------------------------------- progress

  /** As long as not everybody is finished, somebody can go on, whatever the pool looks like. */
  lemma SomebodyCanGoOn(c: Config, s: State)
    requires c.threshold > 0 && c.rpcs > 0 && Inv(c, s) && !Final(s)
    ensures exists ev :: Own(ev) && Enabled(c, s, ev)
  {
    if s.closers > 0 {
      assert Enabled(c, s, Close);
    } else if s.released > 0 {
      assert Enabled(c, s, Count);
    } else if s.holding > 0 {
      assert Enabled(c, s, Release);
    } else if s.pending > 0 && s.queued == 0 {
      assert Enabled(c, s, Report);
    } else if s.waiter.Collecting? {
      assert Enabled(c, s, Collect);
    } else if s.waiter.left > 0 {
      assert Enabled(c, s, Receive);
    } else {
      assert Enabled(c, s, Consume);
    }
  }

  // ------------------------------------------------------------- whole runs

  ghost predicate IsRun(c: Config, run: seq<State>, events: seq<Event>) {
    && |run| == |events| + 1 && run[0] == Init(c)
    && forall i :: 0 <= i < |events| ==> Enabled(c, run[i], events[i]) && run[i + 1] == Next(c, run[i], events[i])
  }

  function CountOf(events: seq<Event>, P: Event -> bool): nat {
    if events == [] then 0
    else CountOf(events[..|events| - 1], P) + One(P(events[|events| - 1]))
  }

  function Receivings(): Event -> bool { (ev: Event) => Receives(ev) }
  function Leasings(): Event -> bool { (ev: Event) => ev.Lease? }
  function Releases(): Event -> bool { (ev: Event) => ev.Release? }
  function Closes(): Event -> bool { (ev: Event) => ev.Close? }
  function Owns(): Event -> bool { (ev: Event) => Own(ev) }

  /** What the counts of past events say about the state. */
  ghost predicate Accounts(c: Config, s: State, events: seq<Event>) {
    && CountOf(events, Receivings()) == s.done + s.holding + s.released
    && CountOf(events, Leasings()) == CountOf(events, Releases()) + s.leased
    && CountOf(events, Closes()) == One(s.closed)
    && CountOf(events, Owns()) + Rank(c, s) <= 7 * c.rpcs + 1
  }

  lemma CountNext(events: seq<Event>, ev: Event, P: Event -> bool)
    ensures CountOf(events + [ev], P) == CountOf(events, P) + One(P(ev))
  {
    assert (events + [ev])[..|events|] == events;
  }

  lemma AccountsNext(c: Config, s: State, events: seq<Event>, ev: Event)
    requires c.threshold > 0 && Inv(c, s) && Enabled(c, s, ev) && Accounts(c, s, events)
    ensures Inv(c, Next(c, s, ev)) && Accounts(c, Next(c, s, ev), events + [ev])
  {
    hide CountOf, Next, Enabled, Inv, Rank;
    CountNext(events, ev, Receivings());
    CountNext(events, ev, Leasings());
    CountNext(events, ev, Releases());
    CountNext(events, ev, Closes());
    CountNext(events, ev, Owns());
    NextMoves(c, s, ev);
  }

  lemma {:induction false} RunKeepsInv(c: Config, run: seq<State>, events: seq<Event>, i: nat)
    requires c.threshold > 0 && IsRun(c, run, events) && i < |run|
    ensures Inv(c, run[i]) && Accounts(c, run[i], events[..i])
  {
    hide Enabled, Next, Rank, CountOf;
    if i == 0 {
      AccountsStart(c);
      assert events[..0] == [];
    } else {
      hide Inv, Accounts;
      RunKeepsInv(c, run, events, i - 1);
      AccountsNext(c, run[i - 1], events[..i - 1], events[i - 1]);
      assert events[..i] == events[..i - 1] + [events[i - 1]];
    }
  }

  lemma AccountsStart(c: Config)
    ensures Accounts(c, Init(c), [])
  {
  }

  /** In every run no send or close meets a closed channel, the channel is closed at most once and only
      when every completion has been received and counted, and no receive finds it closed. */
  lemma ClosedOnceAfterTheLast(c: Config, run: seq<State>, events: seq<Event>, i: nat)
    requires c.threshold > 0 && IsRun(c, run, events) && i < |run|
    ensures !run[i].panicked
    ensures CountOf(events[..i], Closes()) <= 1
    ensures run[i].closed ==>
              && CountOf(events[..i], Receivings()) == c.rpcs
              && run[i].pending == run[i].queued == run[i].waiting == 0
    ensures run[i].closed ==> forall ev :: Receives(ev) ==> !Enabled(c, run[i], ev)
  {
    hide CountOf, IsRun;
    RunKeepsInv(c, run, events, i);
  }

  /** A run that cannot go on by itself has received every completion exactly once and given back every
      lease; the channel is closed unless all completions were needed for the quorum. */
  lemma FinishedRun(c: Config, run: seq<State>, events: seq<Event>)
    requires c.threshold > 0 && c.rpcs > 0 && IsRun(c, run, events)
    requires forall ev :: Own(ev) ==> !Enabled(c, run[|events|], ev)
    ensures var s := run[|events|];
            && Final(s) && s.done == c.rpcs && s.leased == 0
            && (s.closed <==> c.threshold < c.rpcs)
    ensures CountOf(events, Receivings()) == c.rpcs
    ensures CountOf(events, Leasings()) == CountOf(events, Releases())
  {
    hide CountOf, Enabled;
    RunKeepsInv(c, run, events, |events|);
    assert events[..|events|] == events;
    if !Final(run[|events|]) {
      SomebodyCanGoOn(c, run[|events|]);
    }
  }

  /** No run takes more than 7 n + 1 steps of its own for n RPCs. */
  lemma RunsAreShort(c: Config, run: seq<State>, events: seq<Event>)
    requires c.threshold > 0 && IsRun(c, run, events)
    ensures CountOf(events, Owns()) <= 7 * c.rpcs + 1
  {
    hide CountOf, Enabled, Next, Rank;
    RunKeepsInv(c, run, events, |events|);
    assert events[..|events|] == events;
  }

  /** The waiter gets out of its first loop in every finished run exactly if there was an RPC to wait
      for: without one it waits for ever. */
  lemma {:induction false} NoRpcBlocks(c: Config, run: seq<State>, events: seq<Event>, i: nat)
    requires c.threshold > 0 && c.rpcs == 0 && IsRun(c, run, events) && i < |run|
    ensures run[i].waiter.Collecting? && forall ev :: Own(ev) ==> !Enabled(c, run[i], ev)
    ensures run[i] == Init(c).(others := run[i].others)
  {
    if i > 0 {
      NoRpcBlocks(c, run, events, i - 1);
      assert !Own(events[i - 1]);
    }
  }

  function Collects(): Event -> bool { (ev: Event) => ev.Collect? }
  function Turns(): Event -> bool { (ev: Event) => ev.Lease? || ev.Receive? }

  /** The waiter leaves its first loop with exactly min(threshold, rpcs) completions received there, and then has
      one turn of the second loop for every other RPC. */
  ghost predicate QuorumFirst(c: Config, s: State, events: seq<Event>) {
    var quorum := if c.threshold < c.rpcs then c.threshold else c.rpcs;
    var first, turns := CountOf(events, Collects()), CountOf(events, Turns());
    match s.waiter
    case Collecting => first == s.done && turns == 0 && (c.rpcs > 0 ==> first < quorum)
    case Leasing(left) => first == quorum && turns + left == c.rpcs - quorum
  }

  lemma QuorumStart(c: Config)
    requires c.threshold > 0
    ensures QuorumFirst(c, Init(c), [])
  {
  }

  lemma QuorumNext(c: Config, s: State, events: seq<Event>, ev: Event)
    requires c.threshold > 0 && Inv(c, s) && Enabled(c, s, ev) && QuorumFirst(c, s, events)
    ensures QuorumFirst(c, Next(c, s, ev), events + [ev])
  {
    hide CountOf;
    CountNext(events, ev, Collects());
    CountNext(events, ev, Turns());
    if s.done == c.rpcs {
      ClosedIsQuiet(c, s);
    }
  }

  lemma {:induction false} QuorumIsCollected(c: Config, run: seq<State>, events: seq<Event>, i: nat)
    requires c.threshold > 0 && IsRun(c, run, events) && i < |run|
    ensures QuorumFirst(c, run[i], events[..i])
  {
    hide QuorumFirst, Inv, Enabled, Next;
    if i == 0 {
      QuorumStart(c);
      assert events[..0] == [];
    } else {
      QuorumIsCollected(c, run, events, i - 1);
      RunKeepsInv(c, run, events, i - 1);
      QuorumNext(c, run[i - 1], events[..i - 1], events[i - 1]);
      assert events[..i] == events[..i - 1] + [events[i - 1]];
    }
  }

  /** Running the goroutines in any order; the schedule is arbitrary. */
  method Play(c: Config) returns (s: State)
    requires c.threshold > 0 && c.rpcs > 0
    ensures Final(s) && s.done == c.rpcs && s.leased == 0 && !s.panicked && (s.closed <==> c.threshold < c.rpcs)
  {
    s := Init(c);
    while !Final(s)
      invariant Inv(c, s)
      decreases Rank(c, s)
    {
      SomebodyCanGoOn(c, s);
      var ev: Event := *;
      if !(Own(ev) && Enabled(c, s, ev)) {
        ev :| Own(ev) && Enabled(c, s, ev);
      }
      NextMoves(c, s, ev);
      s := Next(c, s, ev);
    }
  }
}

/** Merging and splitting RPCs so that they stay below a size limit
    (go-libp2p-blossomsub/blossomsub.go, appendOrMergeRPC). */
module RpcSplit {
  import opened Identifiers
  import opened Options
  import opened Bitmasks

  type Message(==, !new)
  type Subscription(==, !new)
  type Graft(==, !new)
  type Prune(==, !new)
  type MessageId(==, !new)

  datatype IHave = IHave(bitmask: Bitmask, ids: seq<MessageId>)

  /** IWANT and IDONTWANT are lists of message ids. */
  datatype Control = Control(
    graft: seq<Graft>, prune: seq<Prune>, iwant: seq<seq<MessageId>>, ihave: seq<IHave>, idontwant: seq<seq<MessageId>>)

  datatype Rpc = Rpc(from: PeerId, publish: seq<Message>, subscriptions: seq<Subscription>, control: Option<Control>)

  const NoControl := Control([], [], [], [], [])

  function Last<T>(s: seq<T>): T
    requires s != []
  {
    s[|s| - 1]
  }

  // ----------------------------------------------------- what RPCs carry

  /** What an RPC carries of each kind, in order. */
  datatype Load = Load(
    publish: seq<Message>, subscriptions: seq<Subscription>, graft: seq<Graft>, prune: seq<Prune>,
    iwant: seq<MessageId>, ihave: seq<(Bitmask, MessageId)>)

  const NoLoad := Load([], [], [], [], [], [])

  function Plus(a: Load, b: Load): Load {
    Load(a.publish + b.publish, a.subscriptions + b.subscriptions, a.graft + b.graft, a.prune + b.prune,
         a.iwant + b.iwant, a.ihave + b.ihave)
  }

  lemma PlusAssoc(a: Load, b: Load, c: Load)
    ensures Plus(Plus(a, b), c) == Plus(a, Plus(b, c))
  {
  }

  lemma PlusNone(a: Load)
    ensures Plus(a, NoLoad) == a == Plus(NoLoad, a)
  {
  }

  /** How many indivisible items there are. */
  function Count(a: Load): nat {
    |a.publish| + |a.subscriptions| + |a.graft| + |a.prune| + |a.iwant| + |a.ihave|
  }

  function Ids(iwant: seq<seq<MessageId>>): seq<MessageId> {
    if iwant == [] then [] else Ids(iwant[..|iwant| - 1]) + Last(iwant)
  }

  function PairsOf(bitmask: Bitmask, ids: seq<MessageId>): seq<(Bitmask, MessageId)> {
    seq(|ids|, i requires 0 <= i < |ids| => (bitmask, ids[i]))
  }

  function Pairs(ihave: seq<IHave>): seq<(Bitmask, MessageId)> {
    if ihave == [] then [] else Pairs(ihave[..|ihave| - 1]) + PairsOf(Last(ihave).bitmask, Last(ihave).ids)
  }

  function LoadOf(r: Rpc): Load {
    var c := if r.control.Some? then r.control.value else NoControl;
    Load(r.publish, r.subscriptions, c.graft, c.prune, Ids(c.iwant), Pairs(c.ihave))
  }

  function Total(rs: seq<Rpc>): Load {
    if rs == [] then NoLoad else Plus(Total(rs[..|rs| - 1]), LoadOf(Last(rs)))
  }

  // ----------------------------------------------- one item at a time

  /** The units the loops of the code add one after another. `Ctl`, `Want` and `Have` stand for the
      empty containers that are created on demand. */
  datatype Item =
    | Msg(m: Message) | Sub(s: Subscription) | Ctl | Gra(g: Graft) | Pru(p: Prune)
    | Want | WantId(wid: MessageId) | Have(hb: Bitmask) | HaveId(b: Bitmask, hid: MessageId)

  function Messages(ms: seq<Message>): seq<Item> { seq(|ms|, i requires 0 <= i < |ms| => Msg(ms[i])) }
  function Subs(ss: seq<Subscription>): seq<Item> { seq(|ss|, i requires 0 <= i < |ss| => Sub(ss[i])) }
  function Grafts(gs: seq<Graft>): seq<Item> { seq(|gs|, i requires 0 <= i < |gs| => Gra(gs[i])) }
  function Prunes(ps: seq<Prune>): seq<Item> { seq(|ps|, i requires 0 <= i < |ps| => Pru(ps[i])) }
  function WantIds(ids: seq<MessageId>): seq<Item> { seq(|ids|, i requires 0 <= i < |ids| => WantId(ids[i])) }
  function HaveIds(b: Bitmask, ids: seq<MessageId>): seq<Item> {
    seq(|ids|, i requires 0 <= i < |ids| => HaveId(b, ids[i]))
  }

  function Wants(ws: seq<seq<MessageId>>): seq<Item> {
    if ws == [] then [] else Wants(ws[..|ws| - 1]) + ([Want] + WantIds(Last(ws)))
  }

  function Haves(hs: seq<IHave>): seq<Item> {
    if hs == [] then []
    else Haves(hs[..|hs| - 1]) + ([Have(Last(hs).bitmask)] + HaveIds(Last(hs).bitmask, Last(hs).ids))
  }

  function ControlItems(c: Control): seq<Item> {
    [Ctl] + (Grafts(c.graft) + (Prunes(c.prune) + (Wants(c.iwant) + Haves(c.ihave))))
  }

  function Items(r: Rpc): seq<Item> {
    Messages(r.publish) + (Subs(r.subscriptions) + if r.control.None? then [] else ControlItems(r.control.value))
  }

  /** Whether the RPC has a place for the item, so that no nil Control or missing entry is touched. */
  predicate Ready(r: Rpc, x: Item) {
    match x
    case Msg(_) => true
    case Sub(_) => true
    case Ctl => true
    case WantId(_) => r.control.Some? && |r.control.value.iwant| > 0
    case HaveId(b, _) => r.control.Some? && |r.control.value.ihave| > 0 && Last(r.control.value.ihave).bitmask == b
    case _ => r.control.Some?
  }

  /** A container is created only if the RPC has none to use. */
  predicate Needed(r: Rpc, x: Item)
    requires Ready(r, x)
  {
    match x
    case Ctl => r.control.None?
    case Want => r.control.value.iwant == []
    case Have(b) => r.control.value.ihave == [] || Last(r.control.value.ihave).bitmask != b
    case _ => true
  }

  function PutControl(c: Control, x: Item): Control
    requires x.WantId? ==> |c.iwant| > 0
    requires x.HaveId? ==> |c.ihave| > 0
  {
    match x
    case Gra(g) => c.(graft := c.graft + [g])
    case Pru(p) => c.(prune := c.prune + [p])
    case Want => c.(iwant := c.iwant + [[]])
    case WantId(id) => c.(iwant := c.iwant[0 := c.iwant[0] + [id]])
    case Have(b) => c.(ihave := c.ihave + [IHave(b, [])])
    case HaveId(b, id) =>
      var last := Last(c.ihave);
      c.(ihave := c.ihave[|c.ihave| - 1 := last.(ids := last.ids + [id])])
    case _ => c
  }

  function Put(r: Rpc, x: Item): Rpc
    requires Ready(r, x)
  {
    match x
    case Msg(m) => r.(publish := r.publish + [m])
    case Sub(s) => r.(subscriptions := r.subscriptions + [s])
    case Ctl => r.(control := Some(NoControl))
    case _ => r.(control := Some(PutControl(r.control.value, x)))
  }

  /** The new RPC that is started with an item. */
  function Fresh(from: PeerId, x: Item): Rpc {
    match x
    case Msg(m) => Rpc(from, [m], [], None)
    case Sub(s) => Rpc(from, [], [s], None)
    case Ctl => Rpc(from, [], [], Some(NoControl))
    case Gra(g) => Rpc(from, [], [], Some(NoControl.(graft := [g])))
    case Pru(p) => Rpc(from, [], [], Some(NoControl.(prune := [p])))
    case Want => Rpc(from, [], [], Some(NoControl.(iwant := [[]])))
    case WantId(id) => Rpc(from, [], [], Some(NoControl.(iwant := [[id]])))
    case Have(b) => Rpc(from, [], [], Some(NoControl.(ihave := [IHave(b, [])])))
    case HaveId(b, id) => Rpc(from, [], [], Some(NoControl.(ihave := [IHave(b, [id])])))
  }

  /** The item goes into the last RPC if that stays within the limit, and into a new one otherwise. */
  function Place(size: Rpc -> int, limit: int, from: PeerId, out: seq<Rpc>, x: Item): (r: seq<Rpc>)
    requires out != [] && Ready(Last(out), x)
    ensures r != []
  {
    if !Needed(Last(out), x) then out
    else if size(Put(Last(out), x)) > limit then out + [Fresh(from, x)]
    else out[|out| - 1 := Put(Last(out), x)]
  }

  /** `Fill` places the items in turn; it is defined while each of them finds its place ready. */
  function Fill(size: Rpc -> int, limit: int, from: PeerId, out: seq<Rpc>, xs: seq<Item>): (r: Option<seq<Rpc>>)
    requires out != []
    ensures r.Some? ==> r.value != []
  {
    if xs == [] then Some(out)
    else
      var r := Fill(size, limit, from, out, xs[..|xs| - 1]);
      if r.None? || !Ready(Last(r.value), Last(xs)) then None
      else Some(Place(size, limit, from, r.value, Last(xs)))
  }

  lemma {:induction false} FillSplit(size: Rpc -> int, limit: int, from: PeerId, out: seq<Rpc>, a: seq<Item>,
                                     b: seq<Item>)
    requires out != [] && Fill(size, limit, from, out, a).Some?
    ensures Fill(size, limit, from, out, a + b) == Fill(size, limit, from, Fill(size, limit, from, out, a).value, b)
  {
    hide Place, Ready;
    if b == [] {
      assert a + b == a;
    } else {
      var k := |b| - 1;
      assert (a + b)[..|a + b| - 1] == a + b[..k];
      FillSplit(size, limit, from, out, a, b[..k]);
    }
  }

  // ------------------------------------------------ never a missing place

  /** If an item list keeps P of the last RPC, and P makes each item ready, then filling succeeds. */
  lemma {:induction false} FillKeeps(size: Rpc -> int, limit: int, from: PeerId, out: seq<Rpc>, xs: seq<Item>,
                                     P: Rpc -> bool)
    requires out != [] && P(Last(out))
    requires forall r, x :: x in xs && P(r) ==> Ready(r, x) && P(Put(r, x))
    requires forall x :: x in xs ==> P(Fresh(from, x))
    ensures Fill(size, limit, from, out, xs).Some? && P(Last(Fill(size, limit, from, out, xs).value))
  {
    hide Ready, Put, Fresh, Needed;
    if xs != [] {
      FillKeeps(size, limit, from, out, xs[..|xs| - 1], P);
      var r := Fill(size, limit, from, out, xs[..|xs| - 1]).value;
      assert Last(xs) in xs && Ready(Last(r), Last(xs)) && P(Put(Last(r), Last(xs)));
    }
  }

  function Anything(): Rpc -> bool { (r: Rpc) => true }
  function HasControl(): Rpc -> bool { (r: Rpc) => r.control.Some? }
  function HasWant(): Rpc -> bool { (r: Rpc) => r.control.Some? && r.control.value.iwant != [] }
  function HasHave(b: Bitmask): Rpc -> bool {
    (r: Rpc) => r.control.Some? && r.control.value.ihave != [] && Last(r.control.value.ihave).bitmask == b
  }

  ghost predicate Fills(size: Rpc -> int, limit: int, from: PeerId, out: seq<Rpc>, xs: seq<Item>, P: Rpc -> bool)
    requires out != []
  {
    Fill(size, limit, from, out, xs).Some? && P(Last(Fill(size, limit, from, out, xs).value))
  }

  lemma FillsThen(size: Rpc -> int, limit: int, from: PeerId, out: seq<Rpc>, xs: seq<Item>, P: Rpc -> bool,
                  ys: seq<Item>, Q: Rpc -> bool)
    requires out != [] && Fills(size, limit, from, out, xs, P)
    requires Fills(size, limit, from, Fill(size, limit, from, out, xs).value, ys, Q)
    ensures Fills(size, limit, from, out, xs + ys, Q)
  {
    hide Fill;
    FillSplit(size, limit, from, out, xs, ys);
  }

  lemma FillsOne(size: Rpc -> int, limit: int, from: PeerId, out: seq<Rpc>, x: Item, P: Rpc -> bool)
    requires out != [] && Ready(Last(out), x) && P(Last(Place(size, limit, from, out, x)))
    ensures Fills(size, limit, from, out, [x], P)
  {
    hide Place, Ready;
    assert [x][..0] == [];
    assert Fill(size, limit, from, out, []) == Some(out);
  }

  lemma OneWantFills(size: Rpc -> int, limit: int, from: PeerId, out: seq<Rpc>, ids: seq<MessageId>)
    requires out != [] && HasControl()(Last(out))
    ensures Fills(size, limit, from, out, [Want] + WantIds(ids), HasControl())
  {
    hide Fill;
    FillsOne(size, limit, from, out, Want, HasWant());
    FillKeeps(size, limit, from, Fill(size, limit, from, out, [Want]).value, WantIds(ids), HasWant());
    FillsThen(size, limit, from, out, [Want], HasWant(), WantIds(ids), HasControl());
  }

  lemma OneHaveFills(size: Rpc -> int, limit: int, from: PeerId, out: seq<Rpc>, b: Bitmask, ids: seq<MessageId>)
    requires out != [] && HasControl()(Last(out))
    ensures Fills(size, limit, from, out, [Have(b)] + HaveIds(b, ids), HasControl())
  {
    hide Fill;
    FillsOne(size, limit, from, out, Have(b), HasHave(b));
    FillKeeps(size, limit, from, Fill(size, limit, from, out, [Have(b)]).value, HaveIds(b, ids), HasHave(b));
    FillsThen(size, limit, from, out, [Have(b)], HasHave(b), HaveIds(b, ids), HasControl());
  }

  lemma FillsNothing(size: Rpc -> int, limit: int, from: PeerId, out: seq<Rpc>, P: Rpc -> bool)
    requires out != [] && P(Last(out))
    ensures Fills(size, limit, from, out, [], P)
  {
  }

  lemma {:induction false} WantsFill(size: Rpc -> int, limit: int, from: PeerId, out: seq<Rpc>, ws: seq<seq<MessageId>>)
    requires out != [] && HasControl()(Last(out))
    ensures Fills(size, limit, from, out, Wants(ws), HasControl())
  {
    hide Fill, HasControl, WantIds;
    if ws == [] {
      FillsNothing(size, limit, from, out, HasControl());
    } else {
      var front := Wants(ws[..|ws| - 1]);
      WantsFill(size, limit, from, out, ws[..|ws| - 1]);
      OneWantFills(size, limit, from, Fill(size, limit, from, out, front).value, Last(ws));
      FillsThen(size, limit, from, out, front, HasControl(), [Want] + WantIds(Last(ws)), HasControl());
    }
  }

  lemma {:induction false} HavesFill(size: Rpc -> int, limit: int, from: PeerId, out: seq<Rpc>, hs: seq<IHave>)
    requires out != [] && HasControl()(Last(out))
    ensures Fills(size, limit, from, out, Haves(hs), HasControl())
  {
    hide Fill, HasControl, HaveIds;
    if hs == [] {
      FillsNothing(size, limit, from, out, HasControl());
    } else {
      var front, h := Haves(hs[..|hs| - 1]), Last(hs);
      HavesFill(size, limit, from, out, hs[..|hs| - 1]);
      OneHaveFills(size, limit, from, Fill(size, limit, from, out, front).value, h.bitmask, h.ids);
      FillsThen(size, limit, from, out, front, HasControl(), [Have(h.bitmask)] + HaveIds(h.bitmask, h.ids),
                HasControl());
    }
  }

  lemma ControlFills(size: Rpc -> int, limit: int, from: PeerId, out: seq<Rpc>, c: Control)
    requires out != []
    ensures Fills(size, limit, from, out, ControlItems(c), HasControl())
  {
    var P := HasControl();
    var w, h := Wants(c.iwant), Haves(c.ihave);
    FillsOne(size, limit, from, out, Ctl, P);
    var s1 := Fill(size, limit, from, out, [Ctl]).value;
    FillKeeps(size, limit, from, s1, Grafts(c.graft), P);
    var s2 := Fill(size, limit, from, s1, Grafts(c.graft)).value;
    FillKeeps(size, limit, from, s2, Prunes(c.prune), P);
    var s3 := Fill(size, limit, from, s2, Prunes(c.prune)).value;
    WantsFill(size, limit, from, s3, c.iwant);
    HavesFill(size, limit, from, Fill(size, limit, from, s3, w).value, c.ihave);
    hide Fill, Wants, Haves, HasControl, Grafts, Prunes;
    FillsThen(size, limit, from, s3, w, P, h, P);
    FillsThen(size, limit, from, s2, Prunes(c.prune), P, w + h, P);
    FillsThen(size, limit, from, s1, Grafts(c.graft), P, Prunes(c.prune) + (w + h), P);
    FillsThen(size, limit, from, out, [Ctl], P, Grafts(c.graft) + (Prunes(c.prune) + (w + h)), P);
  }

  /** Placing the items of an RPC never meets a nil Control, a missing IWANT or a missing IHAVE. */
  lemma ItemsFill(size: Rpc -> int, limit: int, from: PeerId, out: seq<Rpc>, r: Rpc)
    requires out != []
    ensures Fills(size, limit, from, out, Items(r), Anything())
  {
    var P, ms, ss := Anything(), Messages(r.publish), Subs(r.subscriptions);
    FillKeeps(size, limit, from, out, ms, P);
    var s1 := Fill(size, limit, from, out, ms).value;
    FillKeeps(size, limit, from, s1, ss, P);
    var s2 := Fill(size, limit, from, s1, ss).value;
    var xs := if r.control.None? then [] else ControlItems(r.control.value);
    if r.control.None? {
      FillsNothing(size, limit, from, s2, P);
    } else {
      ControlFills(size, limit, from, s2, r.control.value);
    }
    hide Fill, Messages, Subs, ControlItems;
    FillsThen(size, limit, from, s1, ss, P, xs, P);
    FillsThen(size, limit, from, out, ms, P, ss + xs, P);
  }

  // --------------------------------------------------------- conservation

  function ItemLoad(x: Item): Load {
    match x
    case Msg(m) => NoLoad.(publish := [m])
    case Sub(s) => NoLoad.(subscriptions := [s])
    case Gra(g) => NoLoad.(graft := [g])
    case Pru(p) => NoLoad.(prune := [p])
    case WantId(id) => NoLoad.(iwant := [id])
    case HaveId(b, id) => NoLoad.(ihave := [(b, id)])
    case _ => NoLoad
  }

  function ItemsLoad(xs: seq<Item>): Load {
    if xs == [] then NoLoad else Plus(ItemsLoad(xs[..|xs| - 1]), ItemLoad(Last(xs)))
  }

  lemma {:induction false} ItemsLoadSplit(a: seq<Item>, b: seq<Item>)
    ensures ItemsLoad(a + b) == Plus(ItemsLoad(a), ItemsLoad(b))
  {
    hide Plus, ItemLoad;
    PlusNone(ItemsLoad(a));
    if b == [] {
      assert a + b == a;
    } else {
      var k := |b| - 1;
      assert (a + b)[..|a + b| - 1] == a + b[..k];
      ItemsLoadSplit(a, b[..k]);
      PlusAssoc(ItemsLoad(a), ItemsLoad(b[..k]), ItemLoad(Last(b)));
    }
  }

  /** Equal loads, except that IWANT ids may be in another order when `ordered` is false. */
  ghost predicate Same(a: Load, b: Load, ordered: bool) {
    && a == b.(iwant := a.iwant) && multiset(a.iwant) == multiset(b.iwant)
    && (ordered ==> a == b)
  }

  lemma SamePlus(a: Load, b: Load, c: Load, ordered: bool)
    requires Same(a, b, ordered)
    ensures Same(Plus(a, c), Plus(b, c), ordered) && Same(Plus(c, a), Plus(c, b), ordered)
  {
  }

  /** The RPC keeps its IWANT ids in one list. */
  predicate OneWant(r: Rpc) {
    r.control.Some? ==> |r.control.value.iwant| <= 1
  }

  lemma {:induction false} IdsGrow(ws: seq<seq<MessageId>>, id: MessageId)
    requires ws != []
    ensures multiset(Ids(ws[0 := ws[0] + [id]])) == multiset(Ids(ws)) + multiset{id}
    ensures |ws| == 1 ==> Ids(ws[0 := ws[0] + [id]]) == Ids(ws) + [id]
  {
    var front, k := ws[..|ws| - 1], |ws| - 1;
    var ws' := ws[0 := ws[0] + [id]];
    if |ws| == 1 {
      assert front == [] && ws'[..0] == [];
      assert Ids(ws') == ws[0] + [id] && Ids(ws) == ws[0];
    } else {
      assert ws'[..k] == front[0 := front[0] + [id]];
      IdsGrow(front, id);
    }
  }

  lemma PairsGrow(hs: seq<IHave>, b: Bitmask, id: MessageId)
    requires hs != [] && Last(hs).bitmask == b
    ensures Pairs(hs[|hs| - 1 := Last(hs).(ids := Last(hs).ids + [id])]) == Pairs(hs) + [(b, id)]
  {
    var k := |hs| - 1;
    var hs' := hs[k := Last(hs).(ids := Last(hs).ids + [id])];
    assert hs'[..k] == hs[..k];
    assert PairsOf(b, Last(hs).ids + [id]) == PairsOf(b, Last(hs).ids) + [(b, id)];
  }

  lemma IdsNext(ws: seq<seq<MessageId>>, ids: seq<MessageId>)
    ensures Ids([]) == [] && Ids(ws + [ids]) == Ids(ws) + ids
  {
    assert (ws + [ids])[..|ws|] == ws;
  }

  lemma PairsNext(hs: seq<IHave>, h: IHave)
    ensures Pairs([]) == [] && Pairs(hs + [h]) == Pairs(hs) + PairsOf(h.bitmask, h.ids)
  {
    assert (hs + [h])[..|hs|] == hs;
  }

  lemma OneIds(ids: seq<MessageId>)
    ensures Ids([ids]) == ids
  {
    assert [ids][..0] == [];
  }

  lemma OnePairs(h: IHave)
    ensures Pairs([h]) == PairsOf(h.bitmask, h.ids)
  {
    assert [h][..0] == [];
  }

  lemma PutPlainLoad(r: Rpc, x: Item)
    requires Ready(r, x) && Needed(r, x) && (x.Msg? || x.Sub? || x.Ctl? || x.Gra? || x.Pru?)
    ensures LoadOf(Put(r, x)) == Plus(LoadOf(r), ItemLoad(x))
    ensures OneWant(r) ==> OneWant(Put(r, x))
  {
    hide Ids, Pairs;
  }

  lemma PutWantLoad(r: Rpc, x: Item)
    requires Ready(r, x) && Needed(r, x) && (x.Want? || x.WantId?)
    ensures Same(LoadOf(Put(r, x)), Plus(LoadOf(r), ItemLoad(x)), OneWant(r))
    ensures OneWant(r) ==> OneWant(Put(r, x))
  {
    hide Ids, Pairs;
    var c := r.control.value;
    if x.Want? {
      IdsNext(c.iwant, []);
    } else {
      IdsGrow(c.iwant, x.wid);
    }
  }

  lemma PutHaveLoad(r: Rpc, x: Item)
    requires Ready(r, x) && Needed(r, x) && (x.Have? || x.HaveId?)
    ensures LoadOf(Put(r, x)) == Plus(LoadOf(r), ItemLoad(x))
    ensures OneWant(r) ==> OneWant(Put(r, x))
  {
    hide Ids, Pairs;
    var c := r.control.value;
    if x.Have? {
      PairsNext(c.ihave, IHave(x.hb, []));
    } else {
      PairsGrow(c.ihave, x.b, x.hid);
    }
  }

  lemma PutLoad(r: Rpc, x: Item)
    requires Ready(r, x) && Needed(r, x)
    ensures Same(LoadOf(Put(r, x)), Plus(LoadOf(r), ItemLoad(x)), OneWant(r))
    ensures OneWant(r) ==> OneWant(Put(r, x))
  {
    hide LoadOf, Put, Plus, ItemLoad, OneWant, Needed, Ready;
    if x.Want? || x.WantId? {
      PutWantLoad(r, x);
    } else if x.Have? || x.HaveId? {
      PutHaveLoad(r, x);
    } else {
      PutPlainLoad(r, x);
    }
  }

  lemma FreshLoad(from: PeerId, x: Item)
    ensures LoadOf(Fresh(from, x)) == ItemLoad(x) && OneWant(Fresh(from, x)) && Count(ItemLoad(x)) <= 1
  {
    hide Ids, Pairs;
    IdsNext([], []);
    PairsNext([], IHave([], []));
    match x
    case Want => OneIds([]);
    case WantId(id) => OneIds([id]);
    case Have(b) => OnePairs(IHave(b, []));
    case HaveId(b, id) => OnePairs(IHave(b, [id]));
    case _ =>
  }

  lemma NotNeededLoad(r: Rpc, x: Item)
    requires Ready(r, x) && !Needed(r, x)
    ensures ItemLoad(x) == NoLoad
  {
  }

  lemma PlaceLoad(size: Rpc -> int, limit: int, from: PeerId, out: seq<Rpc>, x: Item)
    requires out != [] && Ready(Last(out), x)
    ensures var r := Place(size, limit, from, out, x);
            && Same(Total(r), Plus(Total(out), ItemLoad(x)), OneWant(Last(out)))
            && (OneWant(Last(out)) ==> OneWant(Last(r)))
  {
    hide LoadOf, ItemLoad, Ready, Needed, Put, Fresh, OneWant, Plus, Count;
    var k, last := |out| - 1, Last(out);
    if !Needed(last, x) {
      NotNeededLoad(last, x);
      PlusNone(Total(out));
    } else if size(Put(last, x)) > limit {
      FreshLoad(from, x);
      assert (out + [Fresh(from, x)])[..|out|] == out;
    } else {
      PutLoad(last, x);
      assert out[k := Put(last, x)][..k] == out[..k];
      SamePlus(LoadOf(Put(last, x)), Plus(LoadOf(last), ItemLoad(x)), Total(out[..k]), OneWant(last));
      PlusAssoc(Total(out[..k]), LoadOf(last), ItemLoad(x));
    }
  }

  lemma {:induction false} FillLoad(size: Rpc -> int, limit: int, from: PeerId, out: seq<Rpc>, xs: seq<Item>)
    requires out != [] && Fill(size, limit, from, out, xs).Some?
    ensures var r := Fill(size, limit, from, out, xs).value;
            && Same(Total(r), Plus(Total(out), ItemsLoad(xs)), OneWant(Last(out)))
            && (OneWant(Last(out)) ==> OneWant(Last(r)))
  {
    hide Place, Ready, Total, OneWant, ItemLoad, Plus;
    if xs == [] {
      PlusNone(Total(out));
    } else {
      var front := xs[..|xs| - 1];
      FillLoad(size, limit, from, out, front);
      var r := Fill(size, limit, from, out, front).value;
      PlaceLoad(size, limit, from, r, Last(xs));
      SamePlus(Total(r), Plus(Total(out), ItemsLoad(front)), ItemLoad(Last(xs)), OneWant(Last(out)));
      PlusAssoc(Total(out), ItemsLoad(front), ItemLoad(Last(xs)));
    }
  }

  /** Adding loads of one kind. */
  lemma PlusMessages(a: seq<Message>, b: seq<Message>)
    ensures Plus(NoLoad.(publish := a), NoLoad.(publish := b)) == NoLoad.(publish := a + b)
  {
  }

  lemma PlusSubs(a: seq<Subscription>, b: seq<Subscription>)
    ensures Plus(NoLoad.(subscriptions := a), NoLoad.(subscriptions := b)) == NoLoad.(subscriptions := a + b)
  {
  }

  lemma PlusGrafts(a: seq<Graft>, b: seq<Graft>)
    ensures Plus(NoLoad.(graft := a), NoLoad.(graft := b)) == NoLoad.(graft := a + b)
  {
  }

  lemma PlusPrunes(a: seq<Prune>, b: seq<Prune>)
    ensures Plus(NoLoad.(prune := a), NoLoad.(prune := b)) == NoLoad.(prune := a + b)
  {
  }

  lemma PlusWantIds(a: seq<MessageId>, b: seq<MessageId>)
    ensures Plus(NoLoad.(iwant := a), NoLoad.(iwant := b)) == NoLoad.(iwant := a + b)
  {
  }

  lemma PlusPairs(a: seq<(Bitmask, MessageId)>, b: seq<(Bitmask, MessageId)>)
    ensures Plus(NoLoad.(ihave := a), NoLoad.(ihave := b)) == NoLoad.(ihave := a + b)
  {
  }

  lemma {:induction false} MessagesLoad(zs: seq<Message>)
    ensures ItemsLoad(Messages(zs)) == NoLoad.(publish := zs)
  {
    if zs != [] {
      hide Plus;
      var k := |zs| - 1;
      MessagesLoad(zs[..k]);
      PlusMessages(zs[..k], [zs[k]]);
      assert Messages(zs)[..k] == Messages(zs[..k]) && zs[..k] + [zs[k]] == zs;
    }
  }

  lemma {:induction false} SubsLoad(zs: seq<Subscription>)
    ensures ItemsLoad(Subs(zs)) == NoLoad.(subscriptions := zs)
  {
    if zs != [] {
      hide Plus;
      var k := |zs| - 1;
      SubsLoad(zs[..k]);
      PlusSubs(zs[..k], [zs[k]]);
      assert Subs(zs)[..k] == Subs(zs[..k]) && zs[..k] + [zs[k]] == zs;
    }
  }

  lemma {:induction false} GraftsLoad(zs: seq<Graft>)
    ensures ItemsLoad(Grafts(zs)) == NoLoad.(graft := zs)
  {
    if zs != [] {
      hide Plus;
      var k := |zs| - 1;
      GraftsLoad(zs[..k]);
      PlusGrafts(zs[..k], [zs[k]]);
      assert Grafts(zs)[..k] == Grafts(zs[..k]) && zs[..k] + [zs[k]] == zs;
    }
  }

  lemma {:induction false} PrunesLoad(zs: seq<Prune>)
    ensures ItemsLoad(Prunes(zs)) == NoLoad.(prune := zs)
  {
    if zs != [] {
      hide Plus;
      var k := |zs| - 1;
      PrunesLoad(zs[..k]);
      PlusPrunes(zs[..k], [zs[k]]);
      assert Prunes(zs)[..k] == Prunes(zs[..k]) && zs[..k] + [zs[k]] == zs;
    }
  }

  lemma {:induction false} WantIdsLoad(zs: seq<MessageId>)
    ensures ItemsLoad(WantIds(zs)) == NoLoad.(iwant := zs)
  {
    if zs != [] {
      hide Plus;
      var k := |zs| - 1;
      WantIdsLoad(zs[..k]);
      PlusWantIds(zs[..k], [zs[k]]);
      assert WantIds(zs)[..k] == WantIds(zs[..k]) && zs[..k] + [zs[k]] == zs;
    }
  }

  lemma {:induction false} HaveIdsLoad(b: Bitmask, zs: seq<MessageId>)
    ensures ItemsLoad(HaveIds(b, zs)) == NoLoad.(ihave := PairsOf(b, zs))
  {
    if zs != [] {
      hide Plus;
      var k := |zs| - 1;
      HaveIdsLoad(b, zs[..k]);
      PlusPairs(PairsOf(b, zs[..k]), [(b, zs[k])]);
      assert HaveIds(b, zs)[..k] == HaveIds(b, zs[..k]) && PairsOf(b, zs[..k]) + [(b, zs[k])] == PairsOf(b, zs);
    }
  }

  lemma {:induction false} WantsLoad(ws: seq<seq<MessageId>>)
    ensures ItemsLoad(Wants(ws)) == NoLoad.(iwant := Ids(ws))
  {
    if ws != [] {
      WantsLoad(ws[..|ws| - 1]);
      WantIdsLoad(Last(ws));
      ContainerLoad(Want, WantIds(Last(ws)));
      ItemsLoadSplit(Wants(ws[..|ws| - 1]), [Want] + WantIds(Last(ws)));
    }
  }

  lemma {:induction false} HavesLoad(hs: seq<IHave>)
    ensures ItemsLoad(Haves(hs)) == NoLoad.(ihave := Pairs(hs))
  {
    if hs != [] {
      var h := Last(hs);
      HavesLoad(hs[..|hs| - 1]);
      HaveIdsLoad(h.bitmask, h.ids);
      ContainerLoad(Have(h.bitmask), HaveIds(h.bitmask, h.ids));
      ItemsLoadSplit(Haves(hs[..|hs| - 1]), [Have(h.bitmask)] + HaveIds(h.bitmask, h.ids));
    }
  }

  lemma ContainerLoad(x: Item, xs: seq<Item>)
    requires ItemLoad(x) == NoLoad
    ensures ItemsLoad([x] + xs) == ItemsLoad(xs)
  {
    hide Plus, ItemLoad;
    ItemsLoadSplit([x], xs);
    assert [x][..0] == [];
    PlusNone(NoLoad);
    PlusNone(ItemsLoad(xs));
  }

  lemma ControlItemsLoad(c: Control)
    ensures ItemsLoad(ControlItems(c)) == Load([], [], c.graft, c.prune, Ids(c.iwant), Pairs(c.ihave))
  {
    hide ItemsLoad, Grafts, Prunes, Wants, Haves, Ids, Pairs;
    var g, p, w, h := Grafts(c.graft), Prunes(c.prune), Wants(c.iwant), Haves(c.ihave);
    GraftsLoad(c.graft);
    PrunesLoad(c.prune);
    WantsLoad(c.iwant);
    HavesLoad(c.ihave);
    ItemsLoadSplit(w, h);
    ItemsLoadSplit(p, w + h);
    ItemsLoadSplit(g, p + (w + h));
    ContainerLoad(Ctl, g + (p + (w + h)));
  }

  lemma ItemsOfLoad(r: Rpc)
    ensures ItemsLoad(Items(r)) == LoadOf(r)
  {
    hide ControlItems, Messages, Subs, Ids, Pairs;
    var xs := if r.control.None? then [] else ControlItems(r.control.value);
    MessagesLoad(r.publish);
    SubsLoad(r.subscriptions);
    if r.control.Some? {
      ControlItemsLoad(r.control.value);
    }
    ItemsLoadSplit(Subs(r.subscriptions), xs);
    ItemsLoadSplit(Messages(r.publish), Subs(r.subscriptions) + xs);
    IdsNext([], []);
    PairsNext([], IHave([], []));
  }

  // ------------------------------------------------------- limit and shape

  /** Within the limit, or with nothing left to divide. */
  ghost predicate Fits(size: Rpc -> int, limit: int, r: Rpc) {
    size(r) <= limit || Count(LoadOf(r)) <= 1
  }

  /** Only the last RPC of `start` was touched, RPCs were only added behind it, and every RPC fits
      unless it is an untouched one. */
  ghost predicate Bounded(size: Rpc -> int, limit: int, froms: set<PeerId>, start: seq<Rpc>, out: seq<Rpc>) {
    && 0 < |start| <= |out|
    && (forall i :: 0 <= i < |start| - 1 ==> out[i] == start[i])
    && out[|start| - 1].from == start[|start| - 1].from
    && (out[|start| - 1] == start[|start| - 1] || Fits(size, limit, out[|start| - 1]))
    && (forall i :: |start| <= i < |out| ==> Fits(size, limit, out[i]) && out[i].from in froms)
  }

  /** The first thing in the RPC. */
  ghost predicate Starts(r: Rpc, x: Item) {
    var c := if r.control.Some? then r.control.value else NoControl;
    match x
    case Msg(m) => r.publish != [] && r.publish[0] == m
    case Sub(s) => r.subscriptions != [] && r.subscriptions[0] == s
    case Ctl => r.control.Some?
    case Gra(g) => c.graft != [] && c.graft[0] == g
    case Pru(p) => c.prune != [] && c.prune[0] == p
    case Want => c.iwant != []
    case WantId(id) => c.iwant != [] && c.iwant[0] != [] && c.iwant[0][0] == id
    case Have(b) => c.ihave != [] && c.ihave[0].bitmask == b
    case HaveId(b, id) => c.ihave != [] && c.ihave[0].bitmask == b && c.ihave[0].ids != [] && c.ihave[0].ids[0] == id
  }

  /** The RPC b was started because its first item did not fit into a any more. */
  ghost predicate Overflow(size: Rpc -> int, limit: int, a: Rpc, b: Rpc) {
    exists x :: Starts(b, x) && Ready(a, x) && size(Put(a, x)) > limit
  }

  ghost predicate Tight(size: Rpc -> int, limit: int, start: seq<Rpc>, out: seq<Rpc>) {
    forall i :: 0 <= |start| - 1 <= i < |out| - 1 ==> Overflow(size, limit, out[i], out[i + 1])
  }

  function DontWant(r: Rpc): seq<seq<MessageId>> {
    if r.control.Some? then r.control.value.idontwant else []
  }

  function DontWants(rs: seq<Rpc>): seq<seq<MessageId>> {
    if rs == [] then [] else DontWants(rs[..|rs| - 1]) + DontWant(Last(rs))
  }

  lemma PlaceBounded(size: Rpc -> int, limit: int, froms: set<PeerId>, start: seq<Rpc>, from: PeerId, out: seq<Rpc>,
                     x: Item)
    requires out != [] && Ready(Last(out), x) && Bounded(size, limit, froms, start, out) && from in froms
    ensures Bounded(size, limit, froms, start, Place(size, limit, from, out, x))
  {
    hide LoadOf, Count, Needed, Ready, PutControl;
    FreshLoad(from, x);
    assert Fresh(from, x).from == from;
    assert Put(Last(out), x).from == Last(out).from;
  }

  lemma PutStarts(r: Rpc, x: Item, y: Item)
    requires Ready(r, y) && Needed(r, y) && Starts(r, x)
    ensures Starts(Put(r, y), x)
  {
  }

  lemma PlaceTight(size: Rpc -> int, limit: int, start: seq<Rpc>, from: PeerId, out: seq<Rpc>, x: Item)
    requires out != [] && Ready(Last(out), x) && Tight(size, limit, start, out) && 0 < |start| <= |out|
    ensures Tight(size, limit, start, Place(size, limit, from, out, x))
  {
    hide Ready, Put, Needed, Starts;
    var k, last := |out| - 1, Last(out);
    if Needed(last, x) {
      if size(Put(last, x)) > limit {
        FreshStarts(from, x);
        assert Overflow(size, limit, last, Fresh(from, x));
      } else if |start| <= k {
        var y :| Starts(last, y) && Ready(out[k - 1], y) && size(Put(out[k - 1], y)) > limit;
        PutStarts(last, y, x);
        assert Overflow(size, limit, out[k - 1], Put(last, x));
      }
    }
  }

  lemma FreshStarts(from: PeerId, x: Item)
    ensures Starts(Fresh(from, x), x)
  {
  }

  lemma DontWantsNext(rs: seq<Rpc>, r: Rpc)
    ensures DontWants(rs + [r]) == DontWants(rs) + DontWant(r)
  {
    assert (rs + [r])[..|rs|] == rs;
  }

  lemma ItemsAreNoDontWants(r: Rpc, from: PeerId, x: Item)
    requires Ready(r, x)
    ensures DontWant(Fresh(from, x)) == []
    ensures Needed(r, x) ==> DontWant(Put(r, x)) == DontWant(r)
  {
  }

  lemma PlaceDontWants(size: Rpc -> int, limit: int, from: PeerId, out: seq<Rpc>, x: Item)
    requires out != [] && Ready(Last(out), x)
    ensures DontWants(Place(size, limit, from, out, x)) == DontWants(out)
  {
    hide DontWants, DontWant, Put, Fresh, Ready, Needed;
    var front, last := out[..|out| - 1], Last(out);
    ItemsAreNoDontWants(last, from, x);
    DontWantsNext(out, Fresh(from, x));
    DontWantsNext(front, last);
    DontWantsNext(front, Put(last, x));
    assert out == front + [last] && out[|out| - 1 := Put(last, x)] == front + [Put(last, x)];
  }

  ghost predicate Shaped(size: Rpc -> int, limit: int, froms: set<PeerId>, start: seq<Rpc>, out: seq<Rpc>) {
    && Bounded(size, limit, froms, start, out)
    && Tight(size, limit, start, out)
    && DontWants(out) == DontWants(start)
  }

  lemma {:induction false} FillShaped(size: Rpc -> int, limit: int, froms: set<PeerId>, start: seq<Rpc>, from: PeerId,
                                      out: seq<Rpc>, xs: seq<Item>)
    requires out != [] && Shaped(size, limit, froms, start, out) && from in froms
    requires Fill(size, limit, from, out, xs).Some?
    ensures Shaped(size, limit, froms, start, Fill(size, limit, from, out, xs).value)
  {
    hide Place, Ready, Tight, DontWants;
    if xs != [] {
      var front := xs[..|xs| - 1];
      FillShaped(size, limit, froms, start, from, out, front);
      var r := Fill(size, limit, from, out, front).value;
      PlaceBounded(size, limit, froms, start, from, r, Last(xs));
      PlaceTight(size, limit, start, from, r, Last(xs));
      PlaceDontWants(size, limit, from, r, Last(xs));
    }
  }

  // ---------------------------------------------------------- the operation

  /** All the elements in turn. */
  function FillAll(size: Rpc -> int, limit: int, start: seq<Rpc>, elems: seq<Rpc>): (r: Option<seq<Rpc>>)
    requires start != []
    ensures r.Some? ==> r.value != []
  {
    if elems == [] then Some(start)
    else
      var r := FillAll(size, limit, start, elems[..|elems| - 1]);
      if r.None? then None else Fill(size, limit, Last(elems).from, r.value, Items(Last(elems)))
  }

  /** The first RPC to fill. */
  function Start(slice: seq<Rpc>, elems: seq<Rpc>): (start: seq<Rpc>)
    requires elems != []
    ensures start != []
  {
    if slice == [] then [Rpc(elems[0].from, [], [], None)] else slice
  }

  predicate FastPath(size: Rpc -> int, limit: int, slice: seq<Rpc>, elems: seq<Rpc>) {
    slice == [] && |elems| == 1 && size(elems[0]) < limit
  }

  function AppendOrMerge(size: Rpc -> int, limit: int, slice: seq<Rpc>, elems: seq<Rpc>): (r: Option<seq<Rpc>>) {
    if elems == [] then Some(slice)
    else if FastPath(size, limit, slice, elems) then Some(elems)
    else FillAll(size, limit, Start(slice, elems), elems)
  }

  ghost function Froms(elems: seq<Rpc>): set<PeerId> {
    set r | r in elems :: r.from
  }

  lemma ElemFills(size: Rpc -> int, limit: int, froms: set<PeerId>, start: seq<Rpc>, out: seq<Rpc>, r: Rpc)
    requires out != [] && Shaped(size, limit, froms, start, out) && r.from in froms
    ensures Fill(size, limit, r.from, out, Items(r)).Some?
    ensures var out' := Fill(size, limit, r.from, out, Items(r)).value;
            && Shaped(size, limit, froms, start, out')
            && Same(Total(out'), Plus(Total(out), LoadOf(r)), OneWant(Last(out)))
            && (OneWant(Last(out)) ==> OneWant(Last(out')))
  {
    hide Fill, Items, LoadOf, Shaped, Same, OneWant, Total;
    ItemsFill(size, limit, r.from, out, r);
    FillShaped(size, limit, froms, start, r.from, out, Items(r));
    FillLoad(size, limit, r.from, out, Items(r));
    ItemsOfLoad(r);
  }

  lemma {:induction false} FillAllHolds(size: Rpc -> int, limit: int, froms: set<PeerId>, start: seq<Rpc>,
                                        elems: seq<Rpc>)
    requires start != [] && forall r :: r in elems ==> r.from in froms
    ensures FillAll(size, limit, start, elems).Some?
    ensures var out := FillAll(size, limit, start, elems).value;
            && Shaped(size, limit, froms, start, out)
            && Same(Total(out), Plus(Total(start), Total(elems)), OneWant(Last(start)))
            && (OneWant(Last(start)) ==> OneWant(Last(out)))
  {
    hide Fill, Items, LoadOf, OneWant, Plus, Total, DontWants;
    if elems == [] {
      assert Total(elems) == NoLoad by { TotalNone(); }
      PlusNone(Total(start));
    } else {
      var front, e := elems[..|elems| - 1], Last(elems);
      FillAllHolds(size, limit, froms, start, front);
      var out := FillAll(size, limit, start, front).value;
      ElemFills(size, limit, froms, start, out, e);
      SamePlus(Total(out), Plus(Total(start), Total(front)), LoadOf(e), OneWant(Last(start)));
      PlusAssoc(Total(start), Total(front), LoadOf(e));
      TotalLast(elems);
    }
  }

  lemma TotalNone()
    ensures Total([]) == NoLoad
  {
  }

  lemma TotalLast(rs: seq<Rpc>)
    requires rs != []
    ensures Total(rs) == Plus(Total(rs[..|rs| - 1]), LoadOf(Last(rs)))
  {
  }

  /** Whatever is merged into whatever slice, nothing nil is touched and every published message,
      subscription, GRAFT, PRUNE, IWANT id and IHAVE pair comes out once, in order. Only the IWANT ids
      can change places, and only if the RPC that is extended already has several IWANT lists. */
  lemma MergeConserves(size: Rpc -> int, limit: int, slice: seq<Rpc>, elems: seq<Rpc>)
    ensures AppendOrMerge(size, limit, slice, elems).Some?
    ensures Same(Total(AppendOrMerge(size, limit, slice, elems).value), Plus(Total(slice), Total(elems)),
                 slice == [] || OneWant(Last(slice)))
  {
    hide Plus, Total, FillAll, LoadOf;
    TotalNone();
    PlusNone(Total(slice));
    PlusNone(Total(elems));
    if elems != [] {
      FillAllHolds(size, limit, Froms(elems), Start(slice, elems), elems);
      if slice == [] {
        EmptyRpc(elems[0].from);
      }
    }
  }

  lemma EmptyRpc(from: PeerId)
    ensures Total([Rpc(from, [], [], None)]) == NoLoad && OneWant(Rpc(from, [], [], None))
    ensures DontWants([Rpc(from, [], [], None)]) == [] == DontWants([])
  {
    var r := Rpc(from, [], [], None);
    assert [r][..0] == [];
    assert LoadOf(r) == NoLoad;
  }

  /** On the slow path every RPC that was started or extended is within the limit or has at most one
      indivisible item, nothing before the last RPC of the slice is touched, and a new RPC is started
      only for an item that did not fit into the one before it. */
  lemma MergeShapes(size: Rpc -> int, limit: int, slice: seq<Rpc>, elems: seq<Rpc>)
    requires elems != [] && !FastPath(size, limit, slice, elems)
    ensures AppendOrMerge(size, limit, slice, elems).Some?
    ensures var out := AppendOrMerge(size, limit, slice, elems).value;
            && Bounded(size, limit, Froms(elems), Start(slice, elems), out)
            && Tight(size, limit, Start(slice, elems), out)
  {
    hide FillAll, Bounded, Tight;
    FillAllHolds(size, limit, Froms(elems), Start(slice, elems), elems);
  }

  /** Starting from nothing, every RPC that comes out fits. */
  lemma SplitFits(size: Rpc -> int, limit: int, elem: Rpc)
    ensures AppendOrMerge(size, limit, [], [elem]).Some?
    ensures forall r :: r in AppendOrMerge(size, limit, [], [elem]).value ==>
              Fits(size, limit, r) && r.from == elem.from
  {
    hide FillAll, Tight, LoadOf, Count;
    if !FastPath(size, limit, [], [elem]) {
      MergeShapes(size, limit, [], [elem]);
      var empty := Rpc(elem.from, [], [], None);
      EmptyRpc(elem.from);
      EmptyFits(size, limit, elem.from);
      assert Start([], [elem]) == [empty];
    }
  }

  lemma EmptyFits(size: Rpc -> int, limit: int, from: PeerId)
    ensures Fits(size, limit, Rpc(from, [], [], None))
  {
    IdsNext([], []);
    PairsNext([], IHave([], []));
  }

  /** The IDONTWANT lists of the elements are kept exactly on the fast path, or when there are none. */
  lemma DontWantsKept(size: Rpc -> int, limit: int, slice: seq<Rpc>, elems: seq<Rpc>)
    ensures AppendOrMerge(size, limit, slice, elems).Some?
    ensures (DontWants(AppendOrMerge(size, limit, slice, elems).value) == DontWants(slice) + DontWants(elems)) <==>
            (FastPath(size, limit, slice, elems) || DontWants(elems) == [])
  {
    hide FillAll, Bounded, Tight;
    if elems != [] && !FastPath(size, limit, slice, elems) {
      FillAllHolds(size, limit, Froms(elems), Start(slice, elems), elems);
      if slice == [] {
        EmptyRpc(elems[0].from);
      }
      assert DontWants(AppendOrMerge(size, limit, slice, elems).value) == DontWants(slice);
      if DontWants(elems) != [] {
        assert |DontWants(slice) + DontWants(elems)| > |DontWants(slice)|;
      }
    }
  }

  /** So an RPC at or above the limit loses its IDONTWANT when it is split. */
  lemma DontWantLost(size: Rpc -> int, limit: int, from: PeerId, id: MessageId)
    requires size(Rpc(from, [], [], Some(NoControl.(idontwant := [[id]])))) >= limit
    ensures var r := Rpc(from, [], [], Some(NoControl.(idontwant := [[id]])));
            && AppendOrMerge(size, limit, [], [r]).Some?
            && DontWants([r]) == [[id]] && DontWants(AppendOrMerge(size, limit, [], [r]).value) == []
  {
    hide FillAll, Bounded, Tight, Same, OneWant, Total, LoadOf, Plus;
    var r := Rpc(from, [], [], Some(NoControl.(idontwant := [[id]])));
    FillAllHolds(size, limit, Froms([r]), Start([], [r]), [r]);
    EmptyRpc(from);
    assert [r][..0] == [];
  }

  // -------------------------------------------------------------- the loops

  lemma FillNone(size: Rpc -> int, limit: int, from: PeerId, out: seq<Rpc>)
    requires out != []
    ensures Fill(size, limit, from, out, []) == Some(out)
  {
  }

  lemma FillNext(size: Rpc -> int, limit: int, from: PeerId, start: seq<Rpc>, xs: seq<Item>, i: nat, out: seq<Rpc>)
    requires start != [] && out != [] && i < |xs| && Fill(size, limit, from, start, xs[..i]) == Some(out)
             && Ready(Last(out), xs[i])
    ensures Fill(size, limit, from, start, xs[..i + 1]) == Some(Place(size, limit, from, out, xs[i]))
  {
    hide Place, Ready;
    assert xs[..i + 1][..i] == xs[..i];
  }

  method AddMessages(size: Rpc -> int, limit: int, from: PeerId, start: seq<Rpc>, messages: seq<Message>)
      returns (out: seq<Rpc>)
    requires start != []
    ensures Fill(size, limit, from, start, Messages(messages)) == Some(out)
  {
    hide Fill;
    out := start;
    FillNone(size, limit, from, start);
    for i := 0 to |messages|
      invariant out != [] && Fill(size, limit, from, start, Messages(messages)[..i]) == Some(out)
    {
      var last := Last(out);
      var grown := last.(publish := last.publish + [messages[i]]);
      FillNext(size, limit, from, start, Messages(messages), i, out);
      if size(grown) > limit {
        out := out + [Rpc(from, [messages[i]], [], None)];
      } else {
        out := out[|out| - 1 := grown];
      }
    }
    assert Messages(messages)[..|messages|] == Messages(messages);
  }

  method AddSubscriptions(size: Rpc -> int, limit: int, from: PeerId, start: seq<Rpc>, subs: seq<Subscription>)
      returns (out: seq<Rpc>)
    requires start != []
    ensures Fill(size, limit, from, start, Subs(subs)) == Some(out)
  {
    hide Fill;
    out := start;
    FillNone(size, limit, from, start);
    for i := 0 to |subs|
      invariant out != [] && Fill(size, limit, from, start, Subs(subs)[..i]) == Some(out)
    {
      var last := Last(out);
      var grown := last.(subscriptions := last.subscriptions + [subs[i]]);
      FillNext(size, limit, from, start, Subs(subs), i, out);
      if size(grown) > limit {
        out := out + [Rpc(from, [], [subs[i]], None)];
      } else {
        out := out[|out| - 1 := grown];
      }
    }
    assert Subs(subs)[..|subs|] == Subs(subs);
  }

  method AddGrafts(size: Rpc -> int, limit: int, from: PeerId, start: seq<Rpc>, grafts: seq<Graft>)
      returns (out: seq<Rpc>)
    requires start != [] && HasControl()(Last(start))
    ensures out != [] && HasControl()(Last(out)) && Fill(size, limit, from, start, Grafts(grafts)) == Some(out)
  {
    hide Fill;
    out := start;
    FillNone(size, limit, from, start);
    for i := 0 to |grafts|
      invariant out != [] && HasControl()(Last(out)) && Fill(size, limit, from, start, Grafts(grafts)[..i]) == Some(out)
    {
      var last := Last(out);
      var c := last.control.value;
      var grown := last.(control := Some(c.(graft := c.graft + [grafts[i]])));
      FillNext(size, limit, from, start, Grafts(grafts), i, out);
      if size(grown) > limit {
        out := out + [Rpc(from, [], [], Some(NoControl.(graft := [grafts[i]])))];
      } else {
        out := out[|out| - 1 := grown];
      }
    }
    assert Grafts(grafts)[..|grafts|] == Grafts(grafts);
  }

  method AddPrunes(size: Rpc -> int, limit: int, from: PeerId, start: seq<Rpc>, prunes: seq<Prune>)
      returns (out: seq<Rpc>)
    requires start != [] && HasControl()(Last(start))
    ensures out != [] && HasControl()(Last(out)) && Fill(size, limit, from, start, Prunes(prunes)) == Some(out)
  {
    hide Fill;
    out := start;
    FillNone(size, limit, from, start);
    for i := 0 to |prunes|
      invariant out != [] && HasControl()(Last(out)) && Fill(size, limit, from, start, Prunes(prunes)[..i]) == Some(out)
    {
      var last := Last(out);
      var c := last.control.value;
      var grown := last.(control := Some(c.(prune := c.prune + [prunes[i]])));
      FillNext(size, limit, from, start, Prunes(prunes), i, out);
      if size(grown) > limit {
        out := out + [Rpc(from, [], [], Some(NoControl.(prune := [prunes[i]])))];
      } else {
        out := out[|out| - 1 := grown];
      }
    }
    assert Prunes(prunes)[..|prunes|] == Prunes(prunes);
  }

  method AddWantIds(size: Rpc -> int, limit: int, from: PeerId, start: seq<Rpc>, ids: seq<MessageId>)
      returns (out: seq<Rpc>)
    requires start != [] && HasWant()(Last(start))
    ensures out != [] && HasWant()(Last(out)) && Fill(size, limit, from, start, WantIds(ids)) == Some(out)
  {
    hide Fill;
    out := start;
    FillNone(size, limit, from, start);
    for i := 0 to |ids|
      invariant out != [] && HasWant()(Last(out)) && Fill(size, limit, from, start, WantIds(ids)[..i]) == Some(out)
    {
      var last := Last(out);
      var c := last.control.value;
      var grown := last.(control := Some(c.(iwant := c.iwant[0 := c.iwant[0] + [ids[i]]])));
      FillNext(size, limit, from, start, WantIds(ids), i, out);
      if size(grown) > limit {
        out := out + [Rpc(from, [], [], Some(NoControl.(iwant := [[ids[i]]])))];
      } else {
        out := out[|out| - 1 := grown];
      }
    }
    assert WantIds(ids)[..|ids|] == WantIds(ids);
  }

  method AddHaveIds(size: Rpc -> int, limit: int, from: PeerId, start: seq<Rpc>, b: Bitmask, ids: seq<MessageId>)
      returns (out: seq<Rpc>)
    requires start != [] && HasHave(b)(Last(start))
    ensures out != [] && HasHave(b)(Last(out)) && Fill(size, limit, from, start, HaveIds(b, ids)) == Some(out)
  {
    hide Fill;
    out := start;
    FillNone(size, limit, from, start);
    for i := 0 to |ids|
      invariant out != [] && HasHave(b)(Last(out)) && Fill(size, limit, from, start, HaveIds(b, ids)[..i]) == Some(out)
    {
      var last := Last(out);
      var c := last.control.value;
      var k, have := |c.ihave| - 1, Last(c.ihave);
      var grown := last.(control := Some(c.(ihave := c.ihave[k := have.(ids := have.ids + [ids[i]])])));
      FillNext(size, limit, from, start, HaveIds(b, ids), i, out);
      if size(grown) > limit {
        out := out + [Rpc(from, [], [], Some(NoControl.(ihave := [IHave(b, [ids[i]])])))];
      } else {
        out := out[|out| - 1 := grown];
      }
    }
    assert HaveIds(b, ids)[..|ids|] == HaveIds(b, ids);
  }

  method AddWant(size: Rpc -> int, limit: int, from: PeerId, start: seq<Rpc>, ids: seq<MessageId>)
      returns (out: seq<Rpc>)
    requires start != [] && HasControl()(Last(start))
    ensures out != [] && HasControl()(Last(out)) && Fill(size, limit, from, start, [Want] + WantIds(ids)) == Some(out)
  {
    out := start;
    var last := Last(out);
    var c := last.control.value;
    if c.iwant == [] {
      var grown := last.(control := Some(c.(iwant := c.iwant + [[]])));
      if size(grown) > limit {
        out := out + [Rpc(from, [], [], Some(NoControl.(iwant := [[]])))];
      } else {
        out := out[|out| - 1 := grown];
      }
    }
    FillOne(size, limit, from, start, Want);
    out := AddWantIds(size, limit, from, out, ids);
    FillSplit(size, limit, from, start, [Want], WantIds(ids));
  }

  method AddHave(size: Rpc -> int, limit: int, from: PeerId, start: seq<Rpc>, have: IHave) returns (out: seq<Rpc>)
    requires start != [] && HasControl()(Last(start))
    ensures out != [] && HasControl()(Last(out))
    ensures Fill(size, limit, from, start, [Have(have.bitmask)] + HaveIds(have.bitmask, have.ids)) == Some(out)
  {
    out := start;
    var last := Last(out);
    var c := last.control.value;
    if c.ihave == [] || Last(c.ihave).bitmask != have.bitmask {
      var grown := last.(control := Some(c.(ihave := c.ihave + [IHave(have.bitmask, [])])));
      if size(grown) > limit {
        out := out + [Rpc(from, [], [], Some(NoControl.(ihave := [IHave(have.bitmask, [])])))];
      } else {
        out := out[|out| - 1 := grown];
      }
    }
    FillOne(size, limit, from, start, Have(have.bitmask));
    out := AddHaveIds(size, limit, from, out, have.bitmask, have.ids);
    FillSplit(size, limit, from, start, [Have(have.bitmask)], HaveIds(have.bitmask, have.ids));
  }

  lemma FillOne(size: Rpc -> int, limit: int, from: PeerId, out: seq<Rpc>, x: Item)
    requires out != [] && Ready(Last(out), x)
    ensures Fill(size, limit, from, out, [x]) == Some(Place(size, limit, from, out, x))
  {
    hide Place, Ready;
    assert [x][..0] == [];
    assert Fill(size, limit, from, out, []) == Some(out);
  }

  method AddWants(size: Rpc -> int, limit: int, from: PeerId, start: seq<Rpc>, wants: seq<seq<MessageId>>)
      returns (out: seq<Rpc>)
    requires start != [] && HasControl()(Last(start))
    ensures out != [] && HasControl()(Last(out)) && Fill(size, limit, from, start, Wants(wants)) == Some(out)
  {
    hide Fill, HasControl, WantIds;
    out := start;
    FillNone(size, limit, from, start);
    for i := 0 to |wants|
      invariant out != [] && HasControl()(Last(out)) && Fill(size, limit, from, start, Wants(wants[..i])) == Some(out)
    {
      assert wants[..i + 1][..i] == wants[..i];
      out := AddWant(size, limit, from, out, wants[i]);
      FillSplit(size, limit, from, start, Wants(wants[..i]), [Want] + WantIds(wants[i]));
    }
    assert wants[..|wants|] == wants;
  }

  method AddHaves(size: Rpc -> int, limit: int, from: PeerId, start: seq<Rpc>, haves: seq<IHave>)
      returns (out: seq<Rpc>)
    requires start != [] && HasControl()(Last(start))
    ensures out != [] && HasControl()(Last(out)) && Fill(size, limit, from, start, Haves(haves)) == Some(out)
  {
    hide Fill, HasControl, HaveIds;
    out := start;
    FillNone(size, limit, from, start);
    for i := 0 to |haves|
      invariant out != [] && HasControl()(Last(out)) && Fill(size, limit, from, start, Haves(haves[..i])) == Some(out)
    {
      assert haves[..i + 1][..i] == haves[..i];
      out := AddHave(size, limit, from, out, haves[i]);
      FillSplit(size, limit, from, start, Haves(haves[..i]),
                [Have(haves[i].bitmask)] + HaveIds(haves[i].bitmask, haves[i].ids));
    }
    assert haves[..|haves|] == haves;
  }

  method AddControl(size: Rpc -> int, limit: int, from: PeerId, start: seq<Rpc>, c: Control) returns (out: seq<Rpc>)
    requires start != []
    ensures Fill(size, limit, from, start, ControlItems(c)) == Some(out)
  {
    out := start;
    var last := Last(out);
    if last.control.None? {
      var grown := last.(control := Some(NoControl));
      if size(grown) > limit {
        out := out + [Rpc(from, [], [], Some(NoControl))];
      } else {
        out := out[|out| - 1 := grown];
      }
    }
    FillOne(size, limit, from, start, Ctl);
    ghost var s1 := out;
    out := AddGrafts(size, limit, from, out, c.graft);
    ghost var s2 := out;
    out := AddPrunes(size, limit, from, out, c.prune);
    ghost var s3 := out;
    out := AddWants(size, limit, from, out, c.iwant);
    out := AddHaves(size, limit, from, out, c.ihave);
    FillControl(size, limit, from, start, s1, s2, s3, c);
  }

  lemma FillControl(size: Rpc -> int, limit: int, from: PeerId, start: seq<Rpc>, s1: seq<Rpc>, s2: seq<Rpc>,
                    s3: seq<Rpc>, c: Control)
    requires start != [] && Fill(size, limit, from, start, [Ctl]) == Some(s1)
    requires s1 != [] && Fill(size, limit, from, s1, Grafts(c.graft)) == Some(s2)
    requires s2 != [] && Fill(size, limit, from, s2, Prunes(c.prune)) == Some(s3)
    requires s3 != [] && Fill(size, limit, from, s3, Wants(c.iwant)).Some?
    ensures Fill(size, limit, from, start, ControlItems(c))
              == Fill(size, limit, from, Fill(size, limit, from, s3, Wants(c.iwant)).value, Haves(c.ihave))
  {
    hide Fill, Grafts, Prunes, Wants, Haves;
    var g, p, w, h := Grafts(c.graft), Prunes(c.prune), Wants(c.iwant), Haves(c.ihave);
    FillSplit(size, limit, from, s3, w, h);
    FillSplit(size, limit, from, s2, p, w + h);
    FillSplit(size, limit, from, s1, g, p + (w + h));
    FillSplit(size, limit, from, start, [Ctl], g + (p + (w + h)));
  }

  method AddRpc(size: Rpc -> int, limit: int, start: seq<Rpc>, r: Rpc) returns (out: seq<Rpc>)
    requires start != []
    ensures Fill(size, limit, r.from, start, Items(r)) == Some(out)
  {
    hide Fill, Messages, Subs, ControlItems;
    var s1 := AddMessages(size, limit, r.from, start, r.publish);
    var s2 := AddSubscriptions(size, limit, r.from, s1, r.subscriptions);
    out := s2;
    if r.control.Some? {
      out := AddControl(size, limit, r.from, s2, r.control.value);
    }
    FillNone(size, limit, r.from, s2);
    ghost var xs := if r.control.None? then [] else ControlItems(r.control.value);
    FillSplit(size, limit, r.from, s1, Subs(r.subscriptions), xs);
    FillSplit(size, limit, r.from, start, Messages(r.publish), Subs(r.subscriptions) + xs);
  }

  method AppendOrMergeRpc(size: Rpc -> int, limit: int, slice: seq<Rpc>, elems: seq<Rpc>) returns (out: seq<Rpc>)
    ensures AppendOrMerge(size, limit, slice, elems) == Some(out)
  {
    hide Fill, Items;
    out := slice;
    if elems == [] {
      return;
    }
    if slice == [] && |elems| == 1 && size(elems[0]) < limit {
      return elems;
    }
    if out == [] {
      out := [Rpc(elems[0].from, [], [], None)];
    }
    ghost var start := out;
    for i := 0 to |elems|
      invariant out != [] && FillAll(size, limit, start, elems[..i]) == Some(out)
    {
      assert elems[..i + 1][..i] == elems[..i];
      out := AddRpc(size, limit, out, elems[i]);
    }
    assert elems[..|elems|] == elems;
  }
}

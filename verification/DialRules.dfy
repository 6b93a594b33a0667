/** What the dial scheduler of p2p/dial.go does, on values: its state as one record, one turn of its
    loop as a function of what it picks and when, and the dial history of p2p/util.go. */
module DialRules {
  import opened Options
  import Sorting

  type Id = nat

  datatype Node = Node(id: Id, ip: Option<nat>, tcp: nat)

  datatype Verdict =
    | Ok
    | ErrSelf
    | ErrNoPort
    | ErrAlreadyDialing
    | ErrAlreadyConnected
    | ErrNetRestrict
    | ErrRecentlyDialed

  /** Time in nanoseconds; 30 seconds of inbound throttling and 5 more. */
  const DIAL_HISTORY_EXPIRATION := 35_000_000_000

  /** The default bound on concurrent dials. */
  const DEFAULT_MAX_PENDING_PEERS := 50

  /** What the loop may receive, or a running task may do between two turns. */
  datatype Event =
    | NodeIn(n: Node)
    | TaskDone(id: Id)
    | TaskResolved(n: Node)
    | PeerAdded(id: Id, dialed: bool)
    | PeerRemoved(id: Id, dialed: bool)
    | StaticAdded(n: Node)
    | StaticRemoved(id: Id)
    | HistoryExpired

  /** What an event means for the peers the scheduler knows of. */
  function PeersAfter(event: Event, peers: set<Id>): set<Id> {
    match event
    case PeerAdded(id, _) => peers + {id}
    case PeerRemoved(id, _) => peers - {id}
    case _ => peers
  }

  function DialedBy(event: Event): int {
    match event
    case PeerAdded(_, dialed) => if dialed then 1 else 0
    case PeerRemoved(_, dialed) => if dialed then -1 else 0
    case _ => 0
  }

  datatype Item = Item(id: Id, exp: nat)

  /** The heap of expiry times, as its users see it: the first item is one that expires next. */
  predicate NextFirst(h: seq<Item>) {
    forall i :: 0 <= i < |h| ==> h[0].exp <= h[i].exp
  }

  function Ids(h: seq<Item>): set<Id> {
    set x | x in h :: x.id
  }

  function Marks(h: seq<Item>): set<Item> {
    set x | x in h
  }

  lemma MarkedIs(h: seq<Item>)
    ensures Marked(Marks(h)) == Ids(h)
  {
    assert forall x :: x in h <==> x in Marks(h);
  }

  /** No mark is there twice. */
  ghost predicate Single(h: seq<Item>) {
    forall x :: multiset(h)[x] <= 1
  }

  lemma SingleMore(h: seq<Item>, x: Item)
    requires Single(h) && x.id !in Ids(h)
    ensures forall h' :: multiset(h') == multiset(h) + multiset{x} ==> Single(h') && Marks(h') == Marks(h) + {x}
  {
    assert x !in h;
    forall h' | multiset(h') == multiset(h) + multiset{x} ensures Single(h') && Marks(h') == Marks(h) + {x} {
      assert forall y :: y in h' <==> y in multiset(h');
      assert forall y :: y in h <==> y in multiset(h);
      assert x !in multiset(h);
    }
  }

  lemma SingleLess(h: seq<Item>, x: Item, h': seq<Item>)
    requires Single(h) && multiset(h) == multiset(h') + multiset{x}
    ensures Single(h') && Marks(h') == Marks(h) - {x}
  {
    assert forall y :: y in h' <==> y in multiset(h');
    assert forall y :: y in h <==> y in multiset(h);
    assert multiset(h)[x] == multiset(h')[x] + 1;
    assert forall y :: y != x ==> multiset(h)[y] == multiset(h')[y];
  }

  method Push(h: seq<Item>, x: Item) returns (h': seq<Item>)
    requires NextFirst(h)
    ensures NextFirst(h') && multiset(h') == multiset(h) + multiset{x}
    ensures forall y :: y in h' <==> y in h || y == x
  {
    if |h| > 0 && x.exp < h[0].exp {
      h' := [x] + h;
    } else {
      h' := h + [x];
    }
  }

  /** Some item expires first. */
  method Least(s: seq<Item>) returns (k: nat)
    requires s != []
    ensures k < |s| && forall j :: 0 <= j < |s| ==> s[k].exp <= s[j].exp
  {
    k := 0;
    for i := 0 to |s|
      invariant k < |s|
      invariant forall j :: 0 <= j < i ==> s[k].exp <= s[j].exp
    {
      if s[i].exp < s[k].exp { k := i; }
    }
  }

  /** One item moved to the front. */
  function Fronted(s: seq<Item>, k: nat): (r: seq<Item>)
    requires k < |s|
    ensures |r| == |s| && r[0] == s[k] && multiset(r) == multiset(s)
  {
    assert s == s[..k] + [s[k]] + s[k + 1..];
    [s[k]] + s[..k] + s[k + 1..]
  }

  lemma FrontedFirst(s: seq<Item>, k: nat)
    requires k < |s| && forall j :: 0 <= j < |s| ==> s[k].exp <= s[j].exp
    ensures NextFirst(Fronted(s, k))
  {
    var r := Fronted(s, k);
    forall j | 0 <= j < |r| ensures r[0].exp <= r[j].exp {
      assert r[j] in multiset(s);
    }
  }

  method Pop(h: seq<Item>) returns (x: Item, h': seq<Item>)
    requires NextFirst(h) && |h| > 0
    ensures x == h[0] && NextFirst(h') && multiset(h) == multiset(h') + multiset{x} && |h'| == |h| - 1
  {
    hide Fronted;
    x, h' := h[0], h[1..];
    assert h == [x] + h';
    if h' != [] {
      var k := Least(h');
      FrontedFirst(h', k);
      h' := Fronted(h', k);
    }
  }

  /** A dial leaves its mark in the history until its time has passed, so that two dials of one node
      are more than the expiration time apart. */
  ghost predicate Spaced(dials: seq<Item>, history: seq<Item>, now: nat) {
    FarApart(dials) &&
    forall d <- dials ::
      d.exp <= now &&
      (d.exp + DIAL_HISTORY_EXPIRATION < now || Item(d.id, d.exp + DIAL_HISTORY_EXPIRATION) in history)
  }

  ghost predicate FarApart(dials: seq<Item>) {
    forall j, k :: 0 <= j < k < |dials| && dials[j].id == dials[k].id ==>
      dials[j].exp + DIAL_HISTORY_EXPIRATION < dials[k].exp
  }

  lemma SpacedDial(dials: seq<Item>, history: seq<Item>, history': seq<Item>, now: nat, id: Id)
    requires Spaced(dials, history, now) && id !in Ids(history)
    requires forall y :: y in history' <==> y in history || y == Item(id, now + DIAL_HISTORY_EXPIRATION)
    ensures Spaced(dials + [Item(id, now)], history', now) && Ids(history') == Ids(history) + {id}
  {
    assert Item(id, now + DIAL_HISTORY_EXPIRATION) in history';
    forall d <- dials | d.id == id ensures d.exp + DIAL_HISTORY_EXPIRATION < now {
      assert Item(id, d.exp + DIAL_HISTORY_EXPIRATION) !in history;
    }
  }

  lemma SpacedLater(dials: seq<Item>, history: seq<Item>, now: nat, now': nat)
    requires Spaced(dials, history, now) && now <= now'
    ensures Spaced(dials, history, now')
  {
  }

  lemma SpacedExpire(dials: seq<Item>, history: seq<Item>, now: nat, x: Item, history': seq<Item>)
    requires Spaced(dials, history, now) && x in history && x.exp < now
    requires multiset(history) == multiset(history') + multiset{x}
    ensures Spaced(dials, history', now) && Ids(history') <= Ids(history) <= Ids(history') + {x.id}
  {
    assert forall y :: y in history <==> y in multiset(history);
    assert forall y :: y in history' <==> y in multiset(history');
  }

  // ---- The loop on values ----

  datatype Settings = Settings(self: Id, maxDialPeers: int, maxActiveDials: int, netRestrict: Option<set<nat>>)

  /** The nodes of the tasks under way and of the static tasks, by identity; where both are one task;
      the peers; the marks of recent dials; the clock; and all dials so far with their times. */
  datatype View = View(dialing: map<Id, Node>, statics: map<Id, Node>, own: set<Id>, peers: set<Id>,
                       dialPeers: int, history: set<Item>, now: nat, dials: seq<Item>)

  /** The part of checkDial that depends on the node alone. */
  predicate Eligible(cfg: Settings, n: Node) {
    n.id != cfg.self && !(n.ip.Some? && n.tcp == 0) &&
    (cfg.netRestrict.Some? ==> n.ip.Some? && n.ip.value in cfg.netRestrict.value)
  }

  function Marked(history: set<Item>): set<Id> {
    set x | x in history :: x.id
  }

  ghost function Busy(v: View): set<Id> {
    v.dialing.Keys + v.peers + Marked(v.history)
  }

  /** The static nodes that may be dialed. */
  ghost function Waiting(cfg: Settings, v: View): set<Id> {
    set id | id in v.statics && Eligible(cfg, v.statics[id]) && id !in Busy(v)
  }

  /** How many dials may be added. */
  function Room(cfg: Settings, v: View): int {
    var slots := (cfg.maxDialPeers - v.dialPeers) * 2;
    (if slots > cfg.maxActiveDials then cfg.maxActiveDials else slots) - |v.dialing|
  }

  function Mark(d: Item): Item {
    Item(d.id, d.exp + DIAL_HISTORY_EXPIRATION)
  }

  /** The dial of a node. */
  function Dialed(v: View, d: Item, n: Node): View {
    v.(dialing := v.dialing[d.id := n], history := v.history + {Mark(d)}, dials := v.dials + [d], now := d.exp)
  }

  /** The dials of static tasks with which a turn begins, in their order. */
  ghost function Started(v: View, ds: seq<Item>): View {
    if ds == [] then v
    else
      var w, d := Started(v, ds[..|ds| - 1]), ds[|ds| - 1];
      if d.id !in w.statics then w else Dialed(w, d, w.statics[d.id]).(own := w.own + {d.id})
  }

  /** Each of these dials has a free slot, and is for a static node that may be dialed. */
  ghost predicate Picks(cfg: Settings, v: View, ds: seq<Item>) {
    ds != [] ==>
      var w, d := Started(v, ds[..|ds| - 1]), ds[|ds| - 1];
      Picks(cfg, v, ds[..|ds| - 1]) && Room(cfg, w) > 0 && d.id in Waiting(cfg, w) && w.now <= d.exp
  }

  lemma NonePicked(cfg: Settings, v: View)
    ensures Picks(cfg, v, []) && Started(v, []) == v
  {
  }

  lemma OneMorePick(cfg: Settings, v: View, ds: seq<Item>, w: View, d: Item)
    requires Picks(cfg, v, ds) && w == Started(v, ds)
    requires Room(cfg, w) > 0 && d.id in Waiting(cfg, w) && d.id in w.statics && w.now <= d.exp
    ensures Picks(cfg, v, ds + [d])
    ensures Started(v, ds + [d]) == Dialed(w, d, w.statics[d.id]).(own := w.own + {d.id})
  {
    hide Waiting, Room, Dialed;
    assert (ds + [d])[..|ds|] == ds;
  }

  /** The marks whose time has not passed. */
  function Unexpired(history: set<Item>, now: nat): set<Item> {
    set x | x in history && now <= x.exp
  }

  lemma ExpiredMark(history: set<Item>, x: Item, now: nat)
    requires x.exp < now
    ensures Unexpired(history - {x}, now) == Unexpired(history, now)
  {
  }

  lemma NoneExpired(h: seq<Item>, now: nat)
    requires NextFirst(h) && (h == [] || now <= h[0].exp)
    ensures Unexpired(Marks(h), now) == Marks(h)
  {
  }

  /** What the event received at that time does. */
  ghost function Taken(cfg: Settings, v: View, event: Event, time: nat): View {
    match event
    case NodeIn(n) =>
      if Room(cfg, v) > 0 && Eligible(cfg, n) && n.id !in Busy(v) then Dialed(v, Item(n.id, time), n) else v
    case TaskDone(id) => v.(dialing := v.dialing - {id}, own := v.own - {id})
    case TaskResolved(n) =>
      if n.id !in v.dialing then v
      else v.(dialing := v.dialing[n.id := n], statics := if n.id in v.own then v.statics[n.id := n] else v.statics)
    case PeerAdded(id, dialed) => v.(peers := v.peers + {id}, dialPeers := v.dialPeers + if dialed then 1 else 0)
    case PeerRemoved(id, dialed) => v.(peers := v.peers - {id}, dialPeers := v.dialPeers - if dialed then 1 else 0)
    case StaticAdded(n) => if n.id in v.statics then v else v.(statics := v.statics[n.id := n])
    case StaticRemoved(id) => v.(statics := v.statics - {id}, own := v.own - {id})
    case HistoryExpired => v.(history := Unexpired(v.history, time), now := time)
  }

  lemma TakenDone(cfg: Settings, v: View, id: Id, time: nat)
    ensures Taken(cfg, v, TaskDone(id), time) == v.(dialing := v.dialing - {id}, own := v.own - {id})
  {
  }

  lemma TakenUnlisted(cfg: Settings, v: View, id: Id, time: nat)
    ensures Taken(cfg, v, StaticRemoved(id), time) == v.(statics := v.statics - {id}, own := v.own - {id})
  {
  }

  lemma NodeTaken(cfg: Settings, v: View, n: Node, time: nat)
    requires Room(cfg, v) > 0 && Eligible(cfg, n) && n.id !in Busy(v)
    ensures Taken(cfg, v, NodeIn(n), time) == Dialed(v, Item(n.id, time), n)
  {
  }

  lemma NodeLeft(cfg: Settings, v: View, n: Node, time: nat)
    requires !Eligible(cfg, n) || n.id in Busy(v)
    ensures Taken(cfg, v, NodeIn(n), time) == v
  {
  }

  lemma NotReceived(cfg: Settings, v: View, n: Node, time: nat)
    requires Room(cfg, v) <= 0
    ensures Taken(cfg, v, NodeIn(n), time) == v
  {
  }

  /** One turn: the static dials until no slot or no task is left, and what the event does. */
  datatype Choice = Choice(picks: seq<Item>, time: nat)

  ghost predicate Proper(cfg: Settings, v: View, c: Choice) {
    var w := Started(v, c.picks);
    Picks(cfg, v, c.picks) && (Room(cfg, w) <= 0 || Waiting(cfg, w) == {}) && w.now <= c.time
  }

  ghost function Turned(cfg: Settings, v: View, event: Event, c: Choice): View {
    Taken(cfg, Started(v, c.picks), event, c.time)
  }

  /** All turns of the loop. */
  ghost function Run(cfg: Settings, v: View, events: seq<Event>, cs: seq<Choice>): View
    requires |cs| == |events|
  {
    if events == [] then v
    else
      var n := |events| - 1;
      Turned(cfg, Run(cfg, v, events[..n], cs[..n]), events[n], cs[n])
  }

  ghost predicate Possible(cfg: Settings, v: View, events: seq<Event>, cs: seq<Choice>)
    requires |cs| == |events|
  {
    forall i :: 0 <= i < |cs| ==> Proper(cfg, Run(cfg, v, events[..i], cs[..i]), cs[i])
  }

  lemma RunStarts(cfg: Settings, v: View)
    ensures Possible(cfg, v, [], []) && Run(cfg, v, [], []) == v
  {
  }

  lemma RunMore(cfg: Settings, v: View, events: seq<Event>, i: nat, cs: seq<Choice>, c: Choice)
    requires i < |events| && |cs| == i && Possible(cfg, v, events[..i], cs)
    requires Proper(cfg, Run(cfg, v, events[..i], cs), c)
    ensures Possible(cfg, v, events[..i + 1], cs + [c])
    ensures Run(cfg, v, events[..i + 1], cs + [c]) == Turned(cfg, Run(cfg, v, events[..i], cs), events[i], c)
  {
    hide Proper, Turned;
    var es, cs' := events[..i + 1], cs + [c];
    assert es[..i] == events[..i] && cs'[..i] == cs;
    forall k | 0 <= k < |cs'| ensures Proper(cfg, Run(cfg, v, es[..k], cs'[..k]), cs'[k]) {
      assert es[..k] == events[..i][..k];
      if k < i { assert cs'[..k] == cs[..k]; }
    }
  }

  // ---- What that means ----

  ghost predicate NoneTwice(ds: seq<Item>) {
    forall j, k :: 0 <= j < k < |ds| ==> ds[j].id != ds[k].id
  }

  /** Every node is kept under its own identity. */
  ghost predicate WellNamed(v: View) {
    (forall id <- v.statics :: v.statics[id].id == id) && (forall id <- v.dialing :: v.dialing[id].id == id)
  }

  /** The node was dialed, and not only among the first n dials. */
  ghost predicate DialedSince(n: nat, dials: seq<Item>, id: Id) {
    exists k :: n <= k < |dials| && dials[k].id == id
  }

  /** What the static dials of a turn come to. */
  ghost predicate Begun(cfg: Settings, v: View, ds: seq<Item>, w: View) {
    && Ids(ds) <= Waiting(cfg, v) && |Ids(ds)| == |ds| && NoneTwice(ds)
    && Waiting(cfg, w) == Waiting(cfg, v) - Ids(ds) && Busy(w) == Busy(v) + Ids(ds) && Appended(v, ds, w)
  }

  ghost predicate Appended(v: View, ds: seq<Item>, w: View) {
    && w.dialing.Keys == v.dialing.Keys + Ids(ds) && |w.dialing| == |v.dialing| + |ds|
    && w.dials == v.dials + ds && w.statics == v.statics && w.dialPeers == v.dialPeers && w.peers == v.peers
  }

  /** They are of different nodes, each of which was static and free to be dialed when the turn began;
      all of these are under way then. */
  lemma {:induction false} PicksWaiting(cfg: Settings, v: View, ds: seq<Item>)
    requires Picks(cfg, v, ds)
    ensures Begun(cfg, v, ds, Started(v, ds))
    decreases |ds|
  {
    hide Begun, Waiting, Room;
    if ds == [] {
      NoneBegun(cfg, v);
    } else {
      var init, d := ds[..|ds| - 1], ds[|ds| - 1];
      PicksWaiting(cfg, v, init);
      assert ds == init + [d];
      OneBegun(cfg, v, init, Started(v, init), d);
    }
  }

  lemma NoneBegun(cfg: Settings, v: View)
    ensures Begun(cfg, v, [], v)
  {
    assert v.dials + [] == v.dials;
  }

  lemma OneBegun(cfg: Settings, v: View, ds: seq<Item>, w: View, d: Item)
    requires Begun(cfg, v, ds, w) && d.id in Waiting(cfg, w)
    ensures d.id in w.statics && Begun(cfg, v, ds + [d], Dialed(w, d, w.statics[d.id]).(own := w.own + {d.id}))
  {
    hide Waiting, Busy, Ids, NoneTwice, Dialed, Appended;
    IsStatic(cfg, w, d.id);
    OneMoreDial(cfg, w, d);
    IdsAppend(ds, d);
    OnePicked(Waiting(cfg, v), Ids(ds), d.id);
    AnotherNode(ds, d);
    OneAppended(v, ds, w, d);
  }

  lemma Regrouped(a: seq<Item>, b: seq<Item>, x: Item)
    ensures a + (b + [x]) == a + b + [x]
  {
  }

  lemma OneAppended(v: View, ds: seq<Item>, w: View, d: Item)
    requires Appended(v, ds, w) && d.id in w.statics && d.id !in w.dialing
    ensures Appended(v, ds + [d], Dialed(w, d, w.statics[d.id]).(own := w.own + {d.id}))
  {
    hide Ids;
    IdsAppend(ds, d);
    KeysMore(w.dialing, d.id, w.statics[d.id]);
    Regrouped(v.dials, ds, d);
  }

  lemma AnotherNode(ds: seq<Item>, d: Item)
    requires NoneTwice(ds) && d.id !in Ids(ds)
    ensures NoneTwice(ds + [d])
  {
    assert forall x <- ds :: x.id in Ids(ds);
  }

  lemma OnePicked(all: set<Id>, picked: set<Id>, id: Id)
    requires picked <= all && id in all - picked
    ensures picked + {id} <= all && |picked + {id}| == |picked| + 1 && all - (picked + {id}) == all - picked - {id}
  {
  }

  lemma IsStatic(cfg: Settings, v: View, id: Id)
    requires id in Waiting(cfg, v)
    ensures id in v.statics && id !in Busy(v) && id !in v.dialing && v.statics[id].id != cfg.self
  {
  }

  lemma IdsAppend(ds: seq<Item>, d: Item)
    ensures Ids(ds + [d]) == Ids(ds) + {d.id}
  {
    assert forall x :: x in ds + [d] <==> x in ds || x == d;
  }

  lemma OneMoreDial(cfg: Settings, v: View, d: Item)
    requires d.id in Waiting(cfg, v)
    ensures var w := Dialed(v, d, v.statics[d.id]).(own := v.own + {d.id});
            && w.dialing.Keys == v.dialing.Keys + {d.id} && |w.dialing| == |v.dialing| + 1
            && Busy(w) == Busy(v) + {d.id} && Waiting(cfg, w) == Waiting(cfg, v) - {d.id}
  {
    hide Eligible;
    BusyDialed(v, d, v.statics[d.id]);
  }

  lemma BusyDialed(v: View, d: Item, n: Node)
    ensures Busy(Dialed(v, d, n)) == Busy(v) + {d.id}
    ensures Dialed(v, d, n).dialing.Keys == v.dialing.Keys + {d.id}
    ensures d.id !in v.dialing ==> |Dialed(v, d, n).dialing| == |v.dialing| + 1
  {
    hide Marked;
    MarkedMore(v.history, Mark(d));
    KeysMore(v.dialing, d.id, n);
  }

  lemma KeysMore(m: map<Id, Node>, id: Id, n: Node)
    ensures m[id := n].Keys == m.Keys + {id} && (id !in m ==> |m[id := n]| == |m| + 1)
  {
    assert m[id := n].Keys == m.Keys + {id};
    assert |m[id := n]| == |m[id := n].Keys| && |m| == |m.Keys|;
  }

  lemma MarkedMore(history: set<Item>, x: Item)
    ensures Marked(history + {x}) == Marked(history) + {x.id}
  {
    forall id ensures id in Marked(history + {x}) <==> id in Marked(history) || id == x.id {
      if id == x.id { assert x in history + {x}; }
      if id in Marked(history) {
        var y :| y in history && y.id == id;
        assert y in history + {x};
      }
    }
  }

  /** Exactly as many static nodes are dialed as there are, or as both limits leave room for: no slot
      stays free while one waits. */
  lemma StaticsDialed(cfg: Settings, v: View, c: Choice)
    requires Proper(cfg, v, c)
    ensures var free := cfg.maxActiveDials - |v.dialing|;
            var wanted := 2 * (cfg.maxDialPeers - v.dialPeers) - |v.dialing|;
            && Ids(c.picks) <= Waiting(cfg, v) && |Ids(c.picks)| == |c.picks|
            && (c.picks == [] || (|c.picks| <= free && |c.picks| <= wanted))
            && (Ids(c.picks) == Waiting(cfg, v) || |c.picks| >= free || |c.picks| >= wanted)
  {
    hide Waiting, Busy, Started;
    PicksWaiting(cfg, v, c.picks);
    PicksWithin(cfg, v, c.picks);
  }

  lemma PicksWithin(cfg: Settings, v: View, ds: seq<Item>)
    requires Picks(cfg, v, ds)
    ensures ds != [] ==> |ds| <= Room(cfg, v)
  {
    hide Waiting, Busy, Started;
    if ds != [] { PicksWaiting(cfg, v, ds[..|ds| - 1]); }
  }

  /** When both limits leave room for all static nodes that may be dialed, the next turn dials each of
      them; they are under way unless their own completion is what the turn received. */
  lemma NextTurnDials(cfg: Settings, v: View, event: Event, c: Choice, id: Id)
    requires Proper(cfg, v, c) && id in Waiting(cfg, v)
    requires |v.dialing| + |Waiting(cfg, v)| <= cfg.maxActiveDials
    requires |v.dialing| + |Waiting(cfg, v)| <= 2 * (cfg.maxDialPeers - v.dialPeers)
    ensures var w := Turned(cfg, v, event, c);
            && DialedSince(|v.dials|, w.dials, id)
            && (event != TaskDone(id) ==> id in w.dialing)
  {
    hide Waiting, Busy, Started, Dialed, Taken, Proper, Eligible, Room;
    ProperPicks(cfg, v, c);
    PicksWaiting(cfg, v, c.picks);
    AllPicked(cfg, v, c);
    var w := Started(v, c.picks);
    TakenKeeps(cfg, w, event, c.time);
    PickedSince(v.dials, c.picks, Taken(cfg, w, event, c.time).dials, id);
  }

  /** A node from discovery is dialed exactly when the static dials left a slot within both limits, the
      node is another one with a usable address, and it is neither under way, nor connected, nor was
      dialed recently. */
  lemma NodeDialed(cfg: Settings, v: View, n: Node, c: Choice)
    requires Proper(cfg, v, c)
    ensures var w := Turned(cfg, v, NodeIn(n), c);
            var underway := |v.dialing| + |c.picks|;
            var fit := underway < cfg.maxActiveDials && underway < 2 * (cfg.maxDialPeers - v.dialPeers);
            var address := (n.ip.Some? ==> n.tcp != 0) &&
                           (cfg.netRestrict.Some? ==> n.ip.Some? && n.ip.value in cfg.netRestrict.value);
            var busy := n.id in v.dialing || n.id in v.peers || (exists x :: x in v.history && x.id == n.id) ||
                        n.id in Ids(c.picks);
            if fit && n.id != cfg.self && address && !busy
            then w.dials == v.dials + c.picks + [Item(n.id, c.time)] && n.id in w.dialing && w.dialing[n.id] == n
            else w == Started(v, c.picks) && w.dials == v.dials + c.picks
  {
    hide Started, Waiting, Busy, Ids, Picks;
    PicksWaiting(cfg, v, c.picks);
    BusyIs(v, n.id);
  }

  lemma BusyIs(v: View, id: Id)
    ensures id in Busy(v) <==> id in v.dialing || id in v.peers || exists x :: x in v.history && x.id == id
  {
  }

  lemma PickedSince(before: seq<Item>, ds: seq<Item>, after: seq<Item>, id: Id)
    requires before + ds <= after && id in Ids(ds)
    ensures DialedSince(|before|, after, id)
  {
    var k :| 0 <= k < |ds| && ds[k].id == id;
    assert after[|before| + k] == (before + ds)[|before| + k] == ds[k];
  }

  lemma ProperPicks(cfg: Settings, v: View, c: Choice)
    requires Proper(cfg, v, c)
    ensures Picks(cfg, v, c.picks)
  {
  }

  lemma AllPicked(cfg: Settings, v: View, c: Choice)
    requires Proper(cfg, v, c)
    requires |v.dialing| + |Waiting(cfg, v)| <= cfg.maxActiveDials
    requires |v.dialing| + |Waiting(cfg, v)| <= 2 * (cfg.maxDialPeers - v.dialPeers)
    ensures Ids(c.picks) == Waiting(cfg, v)
  {
    hide Waiting, Proper, Ids;
    StaticsDialed(cfg, v, c);
    if Ids(c.picks) != Waiting(cfg, v) { Sorting.SubsetSame(Ids(c.picks), Waiting(cfg, v)); }
  }

  /** What is under way stays so, except for a completed task, and no dial is forgotten. */
  lemma TakenKeeps(cfg: Settings, v: View, event: Event, time: nat)
    ensures var w := Taken(cfg, v, event, time);
            && v.dials <= w.dials && (forall id :: id in v.dialing && event != TaskDone(id) ==> id in w.dialing)
            && (w.dials == v.dials ||
                (event.NodeIn? && w.dials == v.dials + [Item(event.n.id, time)] && Room(cfg, v) > 0 &&
                 event.n.id !in Busy(v) && event.n.id != cfg.self))
  {
    hide Busy, Room;
  }

  /** A turn dials nobody but static nodes and the one received, nobody who is under way, connected or
      was dialed recently, nobody twice, and never the node itself. */
  lemma TurnDialsOnly(cfg: Settings, v: View, event: Event, c: Choice)
    requires Proper(cfg, v, c) && WellNamed(v)
    ensures NoneTwice(c.picks)
    ensures forall d <- c.picks :: d.id in v.statics && d.id !in Busy(v) && d.id != cfg.self
    ensures var w := Turned(cfg, v, event, c);
            w.dials == v.dials + c.picks ||
            (event.NodeIn? && w.dials == v.dials + c.picks + [Item(event.n.id, c.time)] &&
             event.n.id != cfg.self && event.n.id !in Busy(v) && event.n.id !in Ids(c.picks))
  {
    hide Waiting, Busy, Started, Dialed, Taken, Proper, Eligible, Room, Ids;
    ProperPicks(cfg, v, c);
    PicksWaiting(cfg, v, c.picks);
    TakenKeeps(cfg, Started(v, c.picks), event, c.time);
    forall d <- c.picks ensures d.id in v.statics && d.id !in Busy(v) && d.id != cfg.self {
      PickKnown(cfg, v, c.picks, d);
    }
  }

  lemma PickKnown(cfg: Settings, v: View, ds: seq<Item>, d: Item)
    requires Ids(ds) <= Waiting(cfg, v) && d in ds && WellNamed(v)
    ensures d.id in v.statics && d.id !in Busy(v) && d.id != cfg.self
  {
    hide Busy;
    assert d.id in Ids(ds);
  }

  /** In every run of the loop, before every turn: a static node that may be dialed is dialed in that
      turn if both limits leave room for all such nodes. */
  lemma RunDials(cfg: Settings, v: View, events: seq<Event>, cs: seq<Choice>, i: nat, id: Id)
    requires |cs| == |events| && i < |events| && Possible(cfg, v, events, cs)
    requires var w := Run(cfg, v, events[..i], cs[..i]);
             && id in Waiting(cfg, w) && |w.dialing| + |Waiting(cfg, w)| <= cfg.maxActiveDials
             && |w.dialing| + |Waiting(cfg, w)| <= 2 * (cfg.maxDialPeers - w.dialPeers)
    ensures var before := Run(cfg, v, events[..i], cs[..i]);
            var after := Run(cfg, v, events[..i + 1], cs[..i + 1]);
            && DialedSince(|before.dials|, after.dials, id)
            && (events[i] != TaskDone(id) ==> id in after.dialing)
  {
    hide Waiting, Turned;
    assert events[..i + 1][..i] == events[..i] && cs[..i + 1][..i] == cs[..i];
    NextTurnDials(cfg, Run(cfg, v, events[..i], cs[..i]), events[i], cs[i], id);
  }

  /** The dials a turn adds to those under way stay within both limits. */
  lemma DialsWithin(cfg: Settings, v: View, event: Event, c: Choice)
    requires Proper(cfg, v, c)
    ensures var w := Turned(cfg, v, event, c);
            && v.dials <= w.dials
            && (|w.dials| > |v.dials| ==>
                  var underway := |v.dialing| + |w.dials| - |v.dials|;
                  underway <= cfg.maxActiveDials && underway <= 2 * (cfg.maxDialPeers - v.dialPeers))
  {
    hide Started, Waiting, Busy, Ids, Taken, Proper;
    ProperPicks(cfg, v, c);
    PicksWaiting(cfg, v, c.picks);
    PicksWithin(cfg, v, c.picks);
    TakenKeeps(cfg, Started(v, c.picks), event, c.time);
  }

  /** The static nodes that may be dialed, spelled out. */
  lemma WaitingIs(cfg: Settings, v: View, id: Id)
    requires WellNamed(v)
    ensures id in Waiting(cfg, v) <==>
              id in v.statics && id != cfg.self && id !in v.dialing && id !in v.peers &&
              (forall x <- v.history :: x.id != id) && (v.statics[id].ip.Some? ==> v.statics[id].tcp != 0) &&
              (cfg.netRestrict.Some? ==>
                 v.statics[id].ip.Some? && v.statics[id].ip.value in cfg.netRestrict.value)
  {
    assert id in Marked(v.history) <==> exists x :: x in v.history && x.id == id;
  }

  /** As many dials may be added as both limits leave. */
  lemma RoomExact(cfg: Settings, v: View, n: int)
    ensures n <= Room(cfg, v) <==>
              |v.dialing| + n <= cfg.maxActiveDials && |v.dialing| + n <= 2 * (cfg.maxDialPeers - v.dialPeers)
  {
  }

  ghost function StaticsAfter(event: Event, statics: set<Id>): set<Id> {
    match event
    case StaticAdded(n) => statics + {n.id}
    case StaticRemoved(id) => statics - {id}
    case _ => statics
  }

  /** What an event means for peers and static nodes. */
  lemma TakenKnows(cfg: Settings, v: View, event: Event, time: nat)
    requires v.own <= v.statics.Keys
    ensures var w := Taken(cfg, v, event, time);
            && w.peers == PeersAfter(event, v.peers) && w.dialPeers == v.dialPeers + DialedBy(event)
            && w.statics.Keys == StaticsAfter(event, v.statics.Keys) && w.own <= w.statics.Keys
            && (forall id <- v.statics | id in w.statics ::
                  w.statics[id] == if event.TaskResolved? && event.n.id == id && id in v.own && id in v.dialing
                                   then event.n else v.statics[id])
            && (event.StaticAdded? && event.n.id !in v.statics ==> w.statics[event.n.id] == event.n)
            && (event.TaskResolved? && event.n.id in v.dialing ==> w.dialing[event.n.id] == event.n)
  {
    hide Busy, Eligible, Room, Unexpired;
  }

  /** The static dials are of the static nodes, and leave those under way alone. */
  lemma {:induction false} StartedNodes(v: View, ds: seq<Item>, id: Id)
    requires id in Started(v, ds).dialing
    ensures Started(v, ds).statics == v.statics
    ensures if id in Ids(ds) && id in v.statics then Started(v, ds).dialing[id] == v.statics[id]
            else id in v.dialing && Started(v, ds).dialing[id] == v.dialing[id]
    decreases |ds|
  {
    if ds != [] {
      var init, d := ds[..|ds| - 1], ds[|ds| - 1];
      assert ds == init + [d];
      IdsAppend(init, d);
      StartedStatics(v, init);
      if id in Started(v, init).dialing { StartedNodes(v, init, id); }
    }
  }

  lemma {:induction false} StartedStatics(v: View, ds: seq<Item>)
    ensures Started(v, ds).statics == v.statics
    decreases |ds|
  {
    if ds != [] { StartedStatics(v, ds[..|ds| - 1]); }
  }

  lemma {:induction false} StartedOwn(v: View, ds: seq<Item>)
    requires v.own <= v.statics.Keys
    ensures Started(v, ds).own <= Started(v, ds).statics.Keys
    decreases |ds|
  {
    if ds != [] { StartedOwn(v, ds[..|ds| - 1]); }
  }

  /** The same for a whole turn. */
  lemma TurnKnows(cfg: Settings, v: View, event: Event, c: Choice)
    requires Proper(cfg, v, c) && v.own <= v.statics.Keys
    ensures var w := Turned(cfg, v, event, c);
            && w.peers == PeersAfter(event, v.peers) && w.dialPeers == v.dialPeers + DialedBy(event)
            && w.statics.Keys == StaticsAfter(event, v.statics.Keys) && w.own <= w.statics.Keys
  {
    hide Started, Waiting, Busy, Taken, Picks, Room;
    PicksWaiting(cfg, v, c.picks);
    StartedOwn(v, c.picks);
    TakenKnows(cfg, Started(v, c.picks), event, c.time);
  }

  /** A node is under way after a turn exactly if it was before or the turn dialed it, and it is not the
      one that reported back. */
  lemma UnderWay(cfg: Settings, v: View, event: Event, c: Choice, id: Id)
    requires Proper(cfg, v, c)
    ensures var w := Turned(cfg, v, event, c);
            id in w.dialing <==> event != TaskDone(id) && (id in v.dialing || DialedSince(|v.dials|, w.dials, id))
  {
    hide Started, Waiting, Busy, Taken, Picks, Room, Ids;
    PicksWaiting(cfg, v, c.picks);
    var m := Started(v, c.picks);
    TakenUnderWay(cfg, m, event, c.time, id);
    SinceEither(v.dials, c.picks, Taken(cfg, m, event, c.time).dials, id);
  }

  lemma TakenUnderWay(cfg: Settings, v: View, event: Event, time: nat, id: Id)
    ensures var w := Taken(cfg, v, event, time);
            && v.dials <= w.dials
            && (id in w.dialing <==> event != TaskDone(id) && (id in v.dialing || DialedSince(|v.dials|, w.dials, id)))
            && (event.TaskDone? ==> w.dials == v.dials)
  {
    hide Busy, Eligible, Room, Unexpired;
    var w := Taken(cfg, v, event, time);
    if event.NodeIn? && w != v { assert w.dials[|v.dials|] == Item(event.n.id, time); }
  }

  lemma SinceEither(before: seq<Item>, ds: seq<Item>, after: seq<Item>, id: Id)
    requires before + ds <= after
    ensures DialedSince(|before|, after, id) <==> id in Ids(ds) || DialedSince(|before + ds|, after, id)
  {
    if id in Ids(ds) { PickedSince(before, ds, after, id); }
    if DialedSince(|before|, after, id) {
      var k :| |before| <= k < |after| && after[k].id == id;
      if k < |before + ds| { assert ds[k - |before|] == after[k]; }
    }
  }

  // ---- Whole runs ----

  predicate Lists(event: Event, id: Id) {
    event.StaticAdded? && event.n.id == id
  }

  predicate Unlists(event: Event, id: Id) {
    event == StaticRemoved(id)
  }

  predicate Connects(event: Event, id: Id) {
    event.PeerAdded? && event.id == id
  }

  predicate Disconnects(event: Event, id: Id) {
    event.PeerRemoved? && event.id == id
  }

  /** The last word on the node among the events: joined after it last left, or there from the start and
      never left. */
  ghost predicate Stands(at: bool, events: seq<Event>, joins: Event -> bool, leaves: Event -> bool) {
    (at && forall i :: 0 <= i < |events| ==> !leaves(events[i])) ||
    exists i :: 0 <= i < |events| && joins(events[i]) && forall j :: i < j < |events| ==> !leaves(events[j])
  }

  lemma StandsNext(at: bool, events: seq<Event>, e: Event, joins: Event -> bool, leaves: Event -> bool)
    requires !(joins(e) && leaves(e))
    ensures Stands(at, events + [e], joins, leaves) <==>
              joins(e) || (!leaves(e) && Stands(at, events, joins, leaves))
  {
    var es := events + [e];
    if joins(e) { assert joins(es[|events|]); }
    var always := at && forall i :: 0 <= i < |events| ==> !leaves(events[i]);
    if !leaves(e) && Stands(at, events, joins, leaves) && !always {
      var i :| 0 <= i < |events| && joins(events[i]) && forall j :: i < j < |events| ==> !leaves(events[j]);
      assert joins(es[i]);
    }
    if Stands(at, es, joins, leaves) && !joins(e) {
      assert es[|events|] == e;
      if at && forall i :: 0 <= i < |es| ==> !leaves(es[i]) {
        assert forall i :: 0 <= i < |events| ==> events[i] == es[i];
      } else {
        var i :| 0 <= i < |es| && joins(es[i]) && forall j :: i < j < |es| ==> !leaves(es[j]);
        assert events[i] == es[i] && forall j :: i < j < |events| ==> events[j] == es[j];
      }
    }
  }

  /** After every run, a node is static exactly if it was added after it was last removed, and a peer
      exactly if it joined after it last left. */
  lemma {:induction false} RunKnows(cfg: Settings, v: View, events: seq<Event>, cs: seq<Choice>, id: Id)
    requires |cs| == |events| && Possible(cfg, v, events, cs) && v.own <= v.statics.Keys
    ensures var w := Run(cfg, v, events, cs);
            && (id in w.statics <==> Stands(id in v.statics, events, e => Lists(e, id), e => Unlists(e, id)))
            && (id in w.peers <==> Stands(id in v.peers, events, e => Connects(e, id), e => Disconnects(e, id)))
            && w.own <= w.statics.Keys
    decreases |events|
  {
    hide Proper, Turned, Stands;
    if events == [] {
      StandsAtFirst(id in v.statics, e => Lists(e, id), e => Unlists(e, id));
      StandsAtFirst(id in v.peers, e => Connects(e, id), e => Disconnects(e, id));
    } else {
      var n := |events| - 1;
      var es, e := events[..n], events[n];
      PossibleBefore(cfg, v, events, cs, n);
      RunKnows(cfg, v, es, cs[..n], id);
      TurnKnows(cfg, Run(cfg, v, es, cs[..n]), e, cs[n]);
      assert events == es + [e];
      StandsNext(id in v.statics, es, e, e => Lists(e, id), e => Unlists(e, id));
      StandsNext(id in v.peers, es, e, e => Connects(e, id), e => Disconnects(e, id));
    }
  }

  lemma StandsAtFirst(at: bool, joins: Event -> bool, leaves: Event -> bool)
    ensures Stands(at, [], joins, leaves) <==> at
  {
  }

  lemma PossibleBefore(cfg: Settings, v: View, events: seq<Event>, cs: seq<Choice>, n: nat)
    requires |cs| == |events| && n < |events| && Possible(cfg, v, events, cs)
    ensures Possible(cfg, v, events[..n], cs[..n]) && Proper(cfg, Run(cfg, v, events[..n], cs[..n]), cs[n])
  {
    hide Proper, Run;
    forall i | 0 <= i < n ensures Proper(cfg, Run(cfg, v, events[..n][..i], cs[..n][..i]), cs[..n][i]) {
      assert events[..n][..i] == events[..i] && cs[..n][..i] == cs[..i];
    }
  }

  /** Every mark in the history is that of a dial. */
  ghost predicate FromDials(v: View) {
    forall x <- v.history :: exists d :: d in v.dials && x == Mark(d)
  }

  lemma {:induction false} RunMarks(cfg: Settings, v: View, events: seq<Event>, cs: seq<Choice>)
    requires |cs| == |events| && FromDials(v)
    ensures FromDials(Run(cfg, v, events, cs))
    decreases |events|
  {
    hide FromDials, Started, Taken;
    if events != [] {
      var n := |events| - 1;
      var w := Run(cfg, v, events[..n], cs[..n]);
      RunMarks(cfg, v, events[..n], cs[..n]);
      StartedMarks(w, cs[n].picks);
      TakenMarks(cfg, Started(w, cs[n].picks), events[n], cs[n].time);
    }
  }

  lemma {:induction false} StartedMarks(v: View, ds: seq<Item>)
    requires FromDials(v)
    ensures FromDials(Started(v, ds))
    decreases |ds|
  {
    hide FromDials, Dialed;
    if ds != [] {
      var w, d := Started(v, ds[..|ds| - 1]), ds[|ds| - 1];
      StartedMarks(v, ds[..|ds| - 1]);
      if d.id in w.statics { DialedMarks(w, d, w.statics[d.id], w.own + {d.id}); }
    }
  }

  lemma DialedMarks(v: View, d: Item, n: Node, own: set<Id>)
    requires FromDials(v)
    ensures FromDials(Dialed(v, d, n)) && FromDials(Dialed(v, d, n).(own := own))
  {
    assert forall x <- v.dials :: x in v.dials + [d];
    assert d in v.dials + [d];
  }

  lemma TakenMarks(cfg: Settings, v: View, event: Event, time: nat)
    requires FromDials(v)
    ensures FromDials(Taken(cfg, v, event, time))
  {
    hide Busy, Eligible, Room, Dialed;
    if event.NodeIn? { DialedMarks(v, Item(event.n.id, time), event.n, v.own); }
  }

  /** Once the history was expired at a time more than 35 seconds after every dial of a static node, the
      node may be dialed again unless it is under way, connected or not to be dialed at all. */
  lemma MayBeDialedAgain(cfg: Settings, v: View, c: Choice, id: Id)
    requires Proper(cfg, v, c) && FromDials(v) && WellNamed(v)
    ensures var w := Turned(cfg, v, HistoryExpired, c);
            id in w.statics && Eligible(cfg, w.statics[id]) && id !in w.dialing && id !in w.peers &&
            (forall d <- w.dials :: d.id == id ==> d.exp + DIAL_HISTORY_EXPIRATION < c.time) ==>
              id in Waiting(cfg, w)
  {
    hide Started, Eligible, Picks, Room;
    var m := Started(v, c.picks);
    StartedMarks(v, c.picks);
    var w := Turned(cfg, v, HistoryExpired, c);
    if id in Marked(w.history) {
      var x :| x in w.history && x.id == id;
      var d :| d in m.dials && x == Mark(d);
    }
  }
}

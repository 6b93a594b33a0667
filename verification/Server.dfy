/** The server loop of p2p/server.go: which connections become peers, and how the dial scheduler is
    kept informed. */
module Server {
  import opened Dial
  import opened DialRules
  import Sorting
  import MP = MatchProtocols

  /** A connection with its flags; dialed covers dynamic and static dials. */
  datatype Conn = Conn(id: Id, inbound: bool, dialed: bool, trusted: bool, caps: seq<MP.Cap>)

  datatype Disc = Admitted | TooManyPeers | AlreadyConnected | Self | UselessPeer

  datatype Config = Config(maxPeers: int, dialRatio: int, noDial: bool, self: Id, protocols: seq<MP.Protocol>)

  const DEFAULT_DIAL_RATIO := 3

  /** Division that rounds towards zero. */
  function Quotient(a: int, b: int): (q: int)
    requires b != 0
    ensures a >= 0 && b > 0 ==> q == a / b
  {
    var q := (if a < 0 then -a else a) / (if b < 0 then -b else b);
    if (a < 0) == (b < 0) then q else -q
  }

  ghost predicate Truncates(a: int, b: int, product: int) {
    (a >= 0 ==> 0 <= a - product && (a - product < b || a - product < -b)) &&
    (a <= 0 ==> a - product <= 0 && (product - a < b || product - a < -b))
  }

  /** What is left over is smaller than the divisor and has the sign of the dividend. */
  lemma QuotientTruncates(a: int, b: int)
    requires b != 0
    ensures Truncates(a, b, Quotient(a, b) * b)
  {
    hide Quotient, Truncates;
    var product := SignedProduct(a, b);
    ProductTruncates(a, b, product);
  }

  lemma ProductTruncates(a: int, b: int, p: int)
    requires p >= 0 && 0 <= (if a < 0 then -a else a) - p < if b < 0 then -b else b
    ensures Truncates(a, b, if a < 0 then -p else p)
  {
  }

  lemma SignedProduct(a: int, b: int) returns (p: int)
    requires b != 0
    ensures Quotient(a, b) * b == if a < 0 then -p else p
    ensures p >= 0 && 0 <= (if a < 0 then -a else a) - p < if b < 0 then -b else b
  {
    hide Quotient;
    var m: nat, d: nat := if a < 0 then -a else a, if b < 0 then -b else b;
    LeftOver(m, d);
    QuotientSigned(a, b, m / d);
    p := m / d * d;
  }

  lemma LeftOver(m: nat, d: nat)
    requires d > 0
    ensures 0 <= m - m / d * d < d && 0 <= m / d * d
  {
    assert m == m / d * d + m % d;
    Times(m / d, d);
  }

  lemma QuotientSigned(a: int, b: int, q: int)
    requires b != 0 && q == (if a < 0 then -a else a) / (if b < 0 then -b else b)
    ensures Quotient(a, b) * b == if a < 0 then -(q * (if b < 0 then -b else b)) else q * (if b < 0 then -b else b)
  {
    Negated(q, if b < 0 then -b else b);
  }

  lemma Negated(q: int, d: int)
    ensures -q * d == -(q * d) && q * -d == -(q * d) && -q * -d == q * d
  {
  }

  function MaxDialedConns(cfg: Config): int {
    if cfg.noDial || cfg.maxPeers == 0 then 0
    else
      var limit := Quotient(cfg.maxPeers, if cfg.dialRatio == 0 then DEFAULT_DIAL_RATIO else cfg.dialRatio);
      if limit == 0 then 1 else limit
  }

  function MaxInboundConns(cfg: Config): int {
    cfg.maxPeers - MaxDialedConns(cfg)
  }

  /** With the settings in use, both limits are proper and share out the peer slots. */
  lemma SlotsShared(cfg: Config)
    requires cfg.maxPeers >= 0 && cfg.dialRatio >= 0
    ensures 0 <= MaxDialedConns(cfg) && 0 <= MaxInboundConns(cfg)
    ensures MaxDialedConns(cfg) + MaxInboundConns(cfg) == cfg.maxPeers
    ensures MaxDialedConns(cfg) == 0 <==> cfg.noDial || cfg.maxPeers == 0
    ensures MaxDialedConns(cfg) > 0 ==>
              var ratio := if cfg.dialRatio == 0 then 3 else cfg.dialRatio;
              MaxDialedConns(cfg) == if cfg.maxPeers < ratio then 1 else cfg.maxPeers / ratio
  {
    QuotientBound(cfg.maxPeers, if cfg.dialRatio == 0 then DEFAULT_DIAL_RATIO else cfg.dialRatio);
    hide Quotient;
  }

  lemma QuotientBound(a: nat, b: nat)
    requires b > 0
    ensures 0 <= Quotient(a, b) <= a
  {
    hide Quotient;
    Times(a / b, b);
    assert a / b * b <= a;
  }

  lemma Times(q: nat, b: nat)
    requires b >= 1
    ensures q * b >= q
  {
  }

  function PostHandshakeChecks(cfg: Config, peers: map<Id, Conn>, inboundCount: int, c: Conn): Disc {
    if !c.trusted && |peers| >= cfg.maxPeers then TooManyPeers
    else if !c.trusted && c.inbound && inboundCount >= MaxInboundConns(cfg) then TooManyPeers
    else if c.id in peers then AlreadyConnected
    else if c.id == cfg.self then Self
    else Admitted
  }

  ghost function Inbound(peers: map<Id, Conn>): set<Id> {
    set id | id in peers && peers[id].inbound
  }

  ghost function DialedPeers(peers: map<Id, Conn>): set<Id> {
    set id | id in peers && peers[id].dialed
  }

  /** The inbound ones among the given peers. */
  ghost function Unvouched(peers: map<Id, Conn>, untrusted: set<Id>): set<Id> {
    set id | id in untrusted && id in peers && peers[id].inbound
  }

  /** What every turn of the loop keeps about the peers and those admitted without trust. */
  ghost predicate Counted(cfg: Config, peers: map<Id, Conn>, inboundCount: int, untrusted: set<Id>) {
    inboundCount == |Inbound(peers)| && cfg.self !in peers && untrusted <= peers.Keys &&
    AtMost(|untrusted|, cfg.maxPeers) && AtMost(|Unvouched(peers, untrusted)|, MaxInboundConns(cfg))
  }

  /** A limit below zero lets nobody in. */
  ghost predicate AtMost(n: nat, limit: int) {
    n <= if limit > 0 then limit else 0
  }

  function One(b: bool): nat {
    if b then 1 else 0
  }

  /** How the counts grow with one more peer. */
  lemma OneMore(peers: map<Id, Conn>, untrusted: set<Id>, c: Conn)
    requires c.id !in peers && untrusted <= peers.Keys
    ensures |Inbound(peers[c.id := c])| == |Inbound(peers)| + One(c.inbound)
    ensures |DialedPeers(peers[c.id := c])| == |DialedPeers(peers)| + One(c.dialed)
    ensures |Unvouched(peers[c.id := c], untrusted)| == |Unvouched(peers, untrusted)|
    ensures |Unvouched(peers[c.id := c], untrusted + {c.id})| == |Unvouched(peers, untrusted)| + One(c.inbound)
    ensures |untrusted + {c.id}| == |untrusted| + 1
  {
    hide *;
    OneMoreInbound(peers, c);
    OneMoreDialed(peers, c);
    OneMoreUnvouched(peers, untrusted, c);
  }

  lemma OneMoreInbound(peers: map<Id, Conn>, c: Conn)
    requires c.id !in peers
    ensures |Inbound(peers[c.id := c])| == |Inbound(peers)| + One(c.inbound)
  {
    assert Inbound(peers[c.id := c]) == if c.inbound then Inbound(peers) + {c.id} else Inbound(peers);
  }

  lemma OneMoreDialed(peers: map<Id, Conn>, c: Conn)
    requires c.id !in peers
    ensures |DialedPeers(peers[c.id := c])| == |DialedPeers(peers)| + One(c.dialed)
  {
    assert DialedPeers(peers[c.id := c]) == if c.dialed then DialedPeers(peers) + {c.id} else DialedPeers(peers);
  }

  lemma OneMoreUnvouched(peers: map<Id, Conn>, untrusted: set<Id>, c: Conn)
    requires c.id !in peers && untrusted <= peers.Keys
    ensures Unvouched(peers[c.id := c], untrusted) == Unvouched(peers, untrusted)
    ensures |Unvouched(peers[c.id := c], untrusted + {c.id})| == |Unvouched(peers, untrusted)| + One(c.inbound)
  {
    var p, u := peers[c.id := c], Unvouched(peers, untrusted);
    assert Unvouched(p, untrusted + {c.id}) == if c.inbound then u + {c.id} else u;
  }

  /** And how they shrink when a peer leaves. */
  lemma OneLess(peers: map<Id, Conn>, untrusted: set<Id>, id: Id)
    requires id in peers && untrusted <= peers.Keys
    ensures |Inbound(peers - {id})| == |Inbound(peers)| - One(peers[id].inbound)
    ensures |DialedPeers(peers - {id})| == |DialedPeers(peers)| - One(peers[id].dialed)
    ensures |Unvouched(peers - {id}, untrusted - {id})| <= |Unvouched(peers, untrusted)|
    ensures |untrusted - {id}| <= |untrusted|
  {
    var p := peers - {id};
    assert Inbound(p) == Inbound(peers) - {id} && (id in Inbound(peers) <==> peers[id].inbound);
    assert DialedPeers(p) == DialedPeers(peers) - {id} && (id in DialedPeers(peers) <==> peers[id].dialed);
    Sorting.SubsetCount(Unvouched(p, untrusted - {id}), Unvouched(peers, untrusted));
    Sorting.SubsetCount(untrusted - {id}, untrusted);
  }

  lemma Subsets(peers: map<Id, Conn>, untrusted: set<Id>)
    requires untrusted <= peers.Keys
    ensures |untrusted| <= |peers| && |Unvouched(peers, untrusted)| <= |Inbound(peers)|
  {
    Sorting.SubsetCount(untrusted, peers.Keys);
    Sorting.SubsetCount(Unvouched(peers, untrusted), Inbound(peers));
  }

  lemma Admission(cfg: Config, peers: map<Id, Conn>, inboundCount: int, untrusted: set<Id>, c: Conn)
    requires Counted(cfg, peers, inboundCount, untrusted)
    requires PostHandshakeChecks(cfg, peers, inboundCount, c) == Admitted
    ensures Counted(cfg, peers[c.id := c], inboundCount + One(c.inbound),
                    if c.trusted then untrusted else untrusted + {c.id})
    ensures c.id !in peers && c.id != cfg.self
    ensures |DialedPeers(peers[c.id := c])| == |DialedPeers(peers)| + One(c.dialed)
  {
    hide Inbound, DialedPeers, Unvouched, MaxInboundConns, PostHandshakeChecks;
    AdmittedWithin(cfg, peers, inboundCount, c);
    OneMore(peers, untrusted, c);
    Subsets(peers, untrusted);
  }

  lemma Departure(cfg: Config, peers: map<Id, Conn>, inboundCount: int, untrusted: set<Id>, id: Id)
    requires Counted(cfg, peers, inboundCount, untrusted) && id in peers
    ensures Counted(cfg, peers - {id}, inboundCount - One(peers[id].inbound), untrusted - {id})
    ensures |DialedPeers(peers - {id})| == |DialedPeers(peers)| - One(peers[id].dialed)
  {
    hide Inbound, DialedPeers, Unvouched, MaxInboundConns;
    OneLess(peers, untrusted, id);
  }

  lemma AdmittedWithin(cfg: Config, peers: map<Id, Conn>, inboundCount: int, c: Conn)
    requires PostHandshakeChecks(cfg, peers, inboundCount, c) == Admitted
    ensures c.id !in peers && c.id != cfg.self
    ensures !c.trusted ==> |peers| < cfg.maxPeers
    ensures !c.trusted && c.inbound ==> inboundCount < MaxInboundConns(cfg)
  {
  }

  lemma TrustChanged(cfg: Config, peers: map<Id, Conn>, inboundCount: int, untrusted: set<Id>, id: Id, trust: bool)
    requires Counted(cfg, peers, inboundCount, untrusted) && id in peers
    ensures Counted(cfg, peers[id := peers[id].(trusted := trust)], inboundCount, untrusted)
    ensures DialedPeers(peers[id := peers[id].(trusted := trust)]) == DialedPeers(peers)
  {
    assert Inbound(peers[id := peers[id].(trusted := trust)]) == Inbound(peers);
    assert Unvouched(peers[id := peers[id].(trusted := trust)], untrusted) == Unvouched(peers, untrusted);
  }

  datatype Event =
    | AddTrusted(id: Id)
    | RemoveTrusted(id: Id)
    | PostHandshake(c: Conn)
    | AddPeer(c: Conn)
    | DelPeer(id: Id)
    | DialLoop(e: DialRules.Event)

  // ---- The loop on values ----

  datatype Book = Book(peers: map<Id, Conn>, trusted: set<Id>)

  /** A connection is admitted if it runs a shared protocol, is new, is not the node itself, and is
      trusted or within both limits. */
  ghost predicate Admits(cfg: Config, peers: map<Id, Conn>, c: Conn) {
    (cfg.protocols == [] || MP.Shared(cfg.protocols, c.caps) != {}) && c.id !in peers && c.id != cfg.self &&
    (c.trusted || (|peers| < cfg.maxPeers && (c.inbound ==> |Inbound(peers)| < MaxInboundConns(cfg))))
  }

  ghost function Trusting(b: Book, id: Id, trust: bool): Book {
    Book(if id in b.peers then b.peers[id := b.peers[id].(trusted := trust)] else b.peers,
         if trust then b.trusted + {id} else b.trusted - {id})
  }

  ghost function Handled(cfg: Config, b: Book, e: Event): Book {
    match e
    case AddTrusted(id) => Trusting(b, id, true)
    case RemoveTrusted(id) => Trusting(b, id, false)
    case AddPeer(c) => if Admits(cfg, b.peers, c) then b.(peers := b.peers[c.id := c]) else b
    case DelPeer(id) => b.(peers := b.peers - {id})
    case _ => b
  }

  ghost function AfterAll(cfg: Config, b: Book, events: seq<Event>): Book {
    if events == [] then b
    else Handled(cfg, AfterAll(cfg, b, events[..|events| - 1]), events[|events| - 1])
  }

  /** The event with that number admitted the node. */
  ghost predicate Joins(cfg: Config, b: Book, events: seq<Event>, i: nat, id: Id)
    requires i < |events|
  {
    events[i].AddPeer? && events[i].c.id == id && Admits(cfg, AfterAll(cfg, b, events[..i]).peers, events[i].c)
  }

  ghost predicate Stays(events: seq<Event>, from: nat, id: Id) {
    forall j :: from <= j < |events| ==> events[j] != DelPeer(id)
  }

  /** After every run of the loop a node is a peer exactly if it was admitted, or was a peer at the
      start, and has not left since. */
  lemma {:induction false} PeerExactly(cfg: Config, b: Book, events: seq<Event>, id: Id)
    ensures id in AfterAll(cfg, b, events).peers <==>
              (id in b.peers && Stays(events, 0, id)) ||
              exists i :: 0 <= i < |events| && Joins(cfg, b, events, i, id) && Stays(events, i + 1, id)
    decreases |events|
  {
    hide Admits;
    if events != [] {
      var n := |events| - 1;
      var es, e := events[..n], events[n];
      PeerExactly(cfg, b, es, id);
      forall i | 0 <= i < n
        ensures Joins(cfg, b, events, i, id) <==> Joins(cfg, b, es, i, id)
        ensures Stays(events, i + 1, id) <==> Stays(es, i + 1, id) && e != DelPeer(id)
      {
        assert es[..i] == events[..i];
        StaysLonger(events, i + 1, id);
      }
      StaysLonger(events, 0, id);
      assert Joins(cfg, b, events, n, id) <==>
               e.AddPeer? && e.c.id == id && Admits(cfg, AfterAll(cfg, b, es).peers, e.c);
    }
  }

  lemma StaysLonger(events: seq<Event>, from: nat, id: Id)
    requires from < |events|
    ensures Stays(events, from, id) <==>
              Stays(events[..|events| - 1], from, id) && events[|events| - 1] != DelPeer(id)
  {
  }

  class Server {
    const cfg: Config
    const dialsched: DialScheduler
    var peers: map<Id, Conn>
    var inboundCount: int
    var trusted: set<Id>
    /** The connected peers that were admitted without the trusted flag. */
    ghost var untrusted: set<Id>

    ghost predicate Valid()
      reads this, dialsched, dialsched.tasks
    {
      Counted(cfg, peers, inboundCount, untrusted) && dialsched.Valid() && Mirrored()
    }

    /** The dial scheduler knows exactly the server's peers and how many were dialed. */
    ghost predicate Mirrored()
      reads `peers, dialsched`peers, dialsched`dialPeers
    {
      dialsched.peers == peers.Keys && dialsched.dialPeers == |DialedPeers(peers)|
    }

    constructor (cfg: Config, dialsched: DialScheduler, trusted: set<Id>)
      requires dialsched.Valid() && dialsched.peers == {} && dialsched.dialPeers == 0
      ensures Valid() && peers == map[] && untrusted == {} && this.dialsched == dialsched && this.cfg == cfg
    {
      this.cfg, this.dialsched, this.trusted := cfg, dialsched, trusted;
      peers, inboundCount, untrusted := map[], 0, {};
    }

    method SetTrusted(id: Id, trust: bool)
      requires Valid()
      modifies `trusted, `peers
      ensures Valid() && trusted == if trust then old(trusted) + {id} else old(trusted) - {id}
      ensures peers == if id in old(peers) then old(peers)[id := old(peers)[id].(trusted := trust)] else old(peers)
    {
      hide Counted, Inbound, DialedPeers, DialScheduler.Valid;
      trusted := if trust then trusted + {id} else trusted - {id};
      if id in peers {
        TrustChanged(cfg, peers, inboundCount, untrusted, id, trust);
        peers := peers[id := peers[id].(trusted := trust)];
      }
    }

    /** After the encryption handshake: mark trusted nodes and check whether to go on. */
    method OnPostHandshake(c: Conn) returns (c': Conn, err: Disc)
      ensures c' == c.(trusted := c.trusted || c.id in trusted)
      ensures err == Admitted <==>
                c.id !in peers && c.id != cfg.self &&
                (c'.trusted || (|peers| < cfg.maxPeers && (c.inbound ==> inboundCount < MaxInboundConns(cfg))))
    {
      c' := if c.id in trusted then c.(trusted := true) else c;
      err := PostHandshakeChecks(cfg, peers, inboundCount, c');
    }

    method AddPeerChecks(c: Conn) returns (err: Disc)
      ensures err == Admitted <==> (cfg.protocols == [] || MP.Shared(cfg.protocols, c.caps) != {}) &&
                                   PostHandshakeChecks(cfg, peers, inboundCount, c) == Admitted
    {
      var matching := MP.CountMatching(cfg.protocols, c.caps);
      if |cfg.protocols| > 0 && matching == 0 {
        return UselessPeer;
      }
      err := PostHandshakeChecks(cfg, peers, inboundCount, c);
    }

    /** The checks, with the inbound count they rely on, are the rule for admission. */
    lemma AdmitsIs(c: Conn)
      requires Valid()
      ensures Admits(cfg, peers, c) <==> (cfg.protocols == [] || MP.Shared(cfg.protocols, c.caps) != {}) &&
                                         PostHandshakeChecks(cfg, peers, inboundCount, c) == Admitted
    {
      hide DialScheduler.Valid, Inbound, MP.Shared;
    }

    /** Tell the dial scheduler, whose loop takes a turn. */
    method Inform(e: DialRules.Event)
      requires dialsched.Valid()
      modifies dialsched, dialsched.tasks
      ensures dialsched.Valid() && old(dialsched.tasks) <= dialsched.tasks
      ensures fresh(dialsched.tasks - old(dialsched.tasks))
      ensures dialsched.peers == PeersAfter(e, old(dialsched.peers))
      ensures dialsched.dialPeers == old(dialsched.dialPeers) + DialedBy(e)
    {
      hide DialScheduler.Valid, Proper, Turned, Dests, Own, Marks;
      dialsched.Named();
      ghost var v := dialsched.Value();
      ghost var c := dialsched.Turn(e);
      TurnKnows(dialsched.cfg, v, e, c);
    }

    method OnAddPeer(c: Conn) returns (err: Disc)
      requires Valid()
      modifies this, dialsched, dialsched.tasks
      ensures Valid() && old(dialsched.tasks) <= dialsched.tasks && fresh(dialsched.tasks - old(dialsched.tasks))
      ensures err == Admitted <==> Admits(cfg, old(peers), c)
      ensures err == Admitted ==> peers == old(peers)[c.id := c]
      ensures err != Admitted ==> peers == old(peers)
      ensures trusted == old(trusted)
      ensures untrusted == if err == Admitted && !c.trusted then old(untrusted) + {c.id} else old(untrusted)
    {
      hide Counted, Inbound, DialedPeers, DialScheduler.Valid, PostHandshakeChecks, MP.Shared, Admits;
      err := AddPeerChecks(c);
      AdmitsIs(c);
      if err == Admitted {
        Admission(cfg, peers, inboundCount, untrusted, c);
        peers := peers[c.id := c];
        Inform(PeerAdded(c.id, c.dialed));
        if c.inbound { inboundCount := inboundCount + 1; }
        untrusted := if c.trusted then untrusted else untrusted + {c.id};
      }
    }

    method OnDelPeer(id: Id)
      requires Valid() && id in peers
      modifies this, dialsched, dialsched.tasks
      ensures Valid() && old(dialsched.tasks) <= dialsched.tasks && fresh(dialsched.tasks - old(dialsched.tasks))
      ensures peers == old(peers) - {id} && untrusted == old(untrusted) - {id} && trusted == old(trusted)
    {
      hide Counted, Inbound, DialedPeers, DialScheduler.Valid;
      var c := peers[id];
      Departure(cfg, peers, inboundCount, untrusted, id);
      peers := peers - {id};
      Inform(PeerRemoved(id, c.dialed));
      if c.inbound { inboundCount := inboundCount - 1; }
      untrusted := untrusted - {id};
    }

    /** Every run of the server loop beside the dial loop, in any interleaving. */
    method Loop(events: seq<Event>)
      requires Valid()
      modifies this, dialsched, dialsched.tasks
      ensures Valid() && Book(peers, trusted) == AfterAll(cfg, old(Book(peers, trusted)), events)
    {
      hide Counted, DialedPeers, DialScheduler.Valid, Handled;
      for i := 0 to |events|
        invariant Valid() && Book(peers, trusted) == AfterAll(cfg, old(Book(peers, trusted)), events[..i])
        invariant old(dialsched.tasks) <= dialsched.tasks && fresh(dialsched.tasks - old(dialsched.tasks))
      {
        assert events[..i + 1][..i] == events[..i];
        Handle(events[i]);
      }
      assert events[..|events|] == events;
    }

    method Handle(event: Event)
      requires Valid()
      modifies this, dialsched, dialsched.tasks
      ensures Valid() && Book(peers, trusted) == Handled(cfg, old(Book(peers, trusted)), event)
      ensures old(dialsched.tasks) <= dialsched.tasks && fresh(dialsched.tasks - old(dialsched.tasks))
    {
      hide Counted, DialedPeers, DialScheduler.Valid, Admits;
      match event
      case AddTrusted(id) => SetTrusted(id, true);
      case RemoveTrusted(id) => SetTrusted(id, false);
      case PostHandshake(c) => var _, _ := OnPostHandshake(c);
      case AddPeer(c) => var _ := OnAddPeer(c);
      case DelPeer(id) => if id in peers { OnDelPeer(id); } else { assert peers - {id} == peers; }
      case DialLoop(e) => if !e.PeerAdded? && !e.PeerRemoved? { Inform(e); }
    }

    /** The invariant in the loop's own terms. */
    lemma Admissions()
      requires Valid()
      ensures inboundCount == |Inbound(peers)| && cfg.self !in peers
      ensures AtMost(|untrusted|, cfg.maxPeers) && AtMost(|Unvouched(peers, untrusted)|, MaxInboundConns(cfg))
      ensures dialsched.peers == peers.Keys && dialsched.dialPeers == |DialedPeers(peers)|
      ensures forall id <- peers, n: Node | n.id == id :: dialsched.CheckDial(n) != Ok
    {
      hide DialScheduler.Valid;
    }
  }
}

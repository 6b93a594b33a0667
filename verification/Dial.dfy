/** The dial scheduler of p2p/dial.go on its tasks, maps and pool.  `DialRules` says on values what one
    turn does. */
module Dial {
  import opened Options
  import opened DialRules

  class DialTask {
    const id: Id
    var dest: Node
    var staticPoolIndex: int

    constructor (n: Node)
      ensures id == n.id && dest == n && staticPoolIndex == -1
    {
      id, dest, staticPoolIndex := n.id, n, -1;
    }
  }

  /** The map names exactly these tasks, each under its own node. */
  ghost predicate Outstanding(dialing: map<Id, DialTask>, running: set<DialTask>) {
    (forall id <- dialing :: dialing[id].id == id && dialing[id] in running) &&
    (forall t <- running :: t.id in dialing && dialing[t.id] == t)
  }

  lemma OutstandingStart(dialing: map<Id, DialTask>, running: set<DialTask>, task: DialTask)
    requires Outstanding(dialing, running) && task.id !in dialing
    ensures task !in running && Outstanding(dialing[task.id := task], running + {task})
    ensures |dialing[task.id := task]| == |dialing| + 1
  {
    var m := dialing[task.id := task];
    assert m.Keys == dialing.Keys + {task.id};
    assert |m| == |m.Keys| && |dialing| == |dialing.Keys|;
  }

  lemma OutstandingDone(dialing: map<Id, DialTask>, running: set<DialTask>, task: DialTask)
    requires Outstanding(dialing, running) && task in running
    ensures task.id in dialing && dialing[task.id] == task && Outstanding(dialing - {task.id}, running - {task})
    ensures |dialing - {task.id}| == |dialing| - 1
  {
    var m := dialing - {task.id};
    assert m.Keys == dialing.Keys - {task.id};
    assert |m| == |m.Keys| && |dialing| == |dialing.Keys|;
  }

  /** The nodes of the tasks in a map. */
  ghost function Dests(m: map<Id, DialTask>): (d: map<Id, Node>)
    reads m.Values`dest
    ensures d.Keys == m.Keys && |d| == |m|
  {
    KeysCount(m);
    KeysCount(map id | id in m :: m[id].dest);
    map id | id in m :: m[id].dest
  }

  lemma KeysCount<T>(m: map<Id, T>)
    ensures |m| == |m.Keys|
  {
  }

  /** Where the task under way is the static task itself. */
  ghost function Own(dialing: map<Id, DialTask>, statics: map<Id, DialTask>): set<Id> {
    set id | id in dialing && id in statics && dialing[id] == statics[id]
  }

  lemma DestsMore(m: map<Id, DialTask>, task: DialTask)
    ensures Dests(m[task.id := task]) == Dests(m)[task.id := task.dest]
  {
  }

  lemma DestsLess(m: map<Id, DialTask>, id: Id)
    ensures Dests(m - {id}) == Dests(m) - {id}
  {
  }

  lemma OwnMore(dialing: map<Id, DialTask>, statics: map<Id, DialTask>, task: DialTask)
    requires task.id !in dialing && task.id in statics && statics[task.id] == task
    ensures Own(dialing[task.id := task], statics) == Own(dialing, statics) + {task.id}
  {
  }

  lemma OwnOther(dialing: map<Id, DialTask>, statics: map<Id, DialTask>, task: DialTask)
    requires task.id !in dialing && task !in statics.Values
    ensures Own(dialing[task.id := task], statics) == Own(dialing, statics)
  {
  }

  lemma OwnNew(dialing: map<Id, DialTask>, statics: map<Id, DialTask>, task: DialTask)
    requires task.id !in statics && task !in dialing.Values
    ensures Own(dialing, statics[task.id := task]) == Own(dialing, statics)
  {
  }

  lemma OwnLess(dialing: map<Id, DialTask>, statics: map<Id, DialTask>, id: Id)
    ensures Own(dialing - {id}, statics) == Own(dialing, statics) - {id}
  {
  }

  lemma OwnGone(dialing: map<Id, DialTask>, statics: map<Id, DialTask>, id: Id)
    ensures Own(dialing, statics - {id}) == Own(dialing, statics) - {id}
  {
  }

  class DialScheduler {
    const cfg: Settings

    var dialing: map<Id, DialTask>
    var peers: set<Id>
    var dialPeers: int
    var statics: map<Id, DialTask>
    var staticPool: seq<DialTask>
    var history: seq<Item>
    var now: nat

    /** Every task made, the tasks whose goroutine has not reported back, and all dials with their times. */
    ghost var tasks: set<DialTask>
    ghost var running: set<DialTask>
    ghost var dials: seq<Item>

    /** The state as the rules see it. */
    ghost function Value(): View
      reads this, dialing.Values`dest, statics.Values`dest
    {
      View(Dests(dialing), Dests(statics), Own(dialing, statics), peers, dialPeers, Marks(history), now, dials)
    }

    function CheckDial(n: Node): Verdict
      reads `dialing, `peers, `history
    {
      if n.id == cfg.self then ErrSelf
      else if n.ip.Some? && n.tcp == 0 then ErrNoPort
      else if n.id in dialing then ErrAlreadyDialing
      else if n.id in peers then ErrAlreadyConnected
      else if cfg.netRestrict.Some? && (n.ip.None? || n.ip.value !in cfg.netRestrict.value) then ErrNetRestrict
      else if n.id in Ids(history) then ErrRecentlyDialed
      else Ok
    }

    ghost function Occupied(): set<Id>
      reads `dialing, `peers, `history
    {
      dialing.Keys + peers + Ids(history)
    }

    lemma CheckDialOk(n: Node)
      ensures CheckDial(n) == Ok <==> Eligible(cfg, n) && n.id !in Occupied()
      ensures CheckDial(n) == Ok <==>
                n.id != cfg.self && (n.ip.Some? ==> n.tcp != 0) && n.id !in dialing && n.id !in peers &&
                (cfg.netRestrict.Some? ==> n.ip.Some? && n.ip.value in cfg.netRestrict.value) &&
                forall x <- history :: x.id != n.id
    {
      assert n.id in Ids(history) <==> exists x :: x in history && x.id == n.id;
    }

    lemma OccupiedIsBusy()
      ensures Busy(Value()) == Occupied()
    {
      MarkedIs(history);
    }

    function FreeDialSlots(): (n: int)
      reads this
      ensures forall v: View :: |v.dialing| == |dialing| && v.dialPeers == dialPeers ==> n == Room(cfg, v)
    {
      var slots := (cfg.maxDialPeers - dialPeers) * 2;
      (if slots > cfg.maxActiveDials then cfg.maxActiveDials else slots) - |dialing|
    }

    ghost predicate Known()
      reads `tasks, `statics, tasks`dest
    {
      (forall t <- tasks :: t.dest.id == t.id) &&
      (forall id <- statics :: statics[id] in tasks && statics[id].id == id)
    }

    /** The dialing map names exactly the tasks whose goroutine has not reported back, each under its
        own node, and no more than allowed. */
    ghost predicate InFlight()
      reads `tasks, `dialing, `running
    {
      Outstanding(dialing, running) && running <= tasks && (|dialing| == 0 || |dialing| <= cfg.maxActiveDials)
    }

    /** The pool has no duplicates, holds only the given tasks, and every index is the true position. */
    ghost predicate Placed(known: map<Id, DialTask>)
      reads `tasks, `staticPool, tasks`staticPoolIndex
    {
      (forall i :: 0 <= i < |staticPool| ==>
         staticPool[i] in tasks && staticPool[i].staticPoolIndex == i &&
         staticPool[i].id in known && known[staticPool[i].id] == staticPool[i]) &&
      (forall id <- known :: known[id] in tasks && (known[id].staticPoolIndex == -1 ||
         (0 <= known[id].staticPoolIndex < |staticPool| && staticPool[known[id].staticPoolIndex] == known[id])))
    }

    /** Of the static tasks, except for one node, exactly the dialable ones are in the pool. */
    ghost predicate Exact(except: Option<Id>, busy: set<Id>)
      reads `tasks, `statics, tasks`dest, tasks`staticPoolIndex
    {
      forall id <- statics | Some(id) != except ::
        statics[id] in tasks &&
        (statics[id].staticPoolIndex >= 0 <==> Eligible(cfg, statics[id].dest) && id !in busy)
    }

    ghost predicate Remembered()
      reads `dials, `history, `now
    {
      NextFirst(history) && Single(history) && Spaced(dials, history, now)
    }

    ghost predicate Valid()
      reads this, tasks
    {
      Known() && InFlight() && Placed(statics) && Exact(None, Occupied()) && Remembered()
    }

    method AddToStaticPool(task: DialTask)
      requires Placed(statics) && task in tasks && task.staticPoolIndex == -1
      requires task.id in statics && statics[task.id] == task
      modifies `staticPool, task`staticPoolIndex
      ensures Placed(statics) && task.staticPoolIndex >= 0
    {
      staticPool := staticPool + [task];
      task.staticPoolIndex := |staticPool| - 1;
    }

    method RemoveFromStaticPool(idx: nat, ghost known: map<Id, DialTask>)
      requires Placed(known) && idx < |staticPool|
      modifies `staticPool, tasks`staticPoolIndex
      ensures Placed(known) && |staticPool| == old(|staticPool|) - 1
      ensures old(staticPool[idx]).staticPoolIndex == -1
      ensures forall t <- tasks :: t != old(staticPool[idx]) ==>
                (t.staticPoolIndex >= 0 <==> old(t.staticPoolIndex) >= 0)
    {
      var task := staticPool[idx];
      var end := |staticPool| - 1;
      staticPool := staticPool[idx := staticPool[end]];
      staticPool[idx].staticPoolIndex := idx;
      staticPool := staticPool[..end];
      task.staticPoolIndex := -1;
    }

    /** Take out of the pool a task whose node has become busy. */
    method Withdraw(idx: nat, ghost busy: set<Id>)
      requires Known() && Placed(statics) && Exact(None, busy) && idx < |staticPool|
      modifies `staticPool, tasks`staticPoolIndex
      ensures Placed(statics) && Exact(None, busy + {old(staticPool[idx]).id})
      ensures |staticPool| == old(|staticPool|) - 1
    {
      hide Eligible;
      RemoveFromStaticPool(idx, statics);
    }

    /** Take out of the pool a task that is no longer static. */
    method Discard(idx: nat, ghost known: map<Id, DialTask>, ghost busy: set<Id>)
      requires Known() && Placed(known) && Exact(None, busy) && idx < |staticPool|
      requires statics == known - {staticPool[idx].id}
      modifies `staticPool, tasks`staticPoolIndex
      ensures Placed(statics) && Exact(None, busy)
    {
      hide Eligible;
      RemoveFromStaticPool(idx, known);
    }

    /** Put a static task into the pool if it can be dialed. */
    method Offer(task: DialTask)
      requires Known() && Placed(statics) && Exact(Some(task.id), Occupied())
      requires task in tasks && task.staticPoolIndex == -1
      requires task.id in statics && statics[task.id] == task && task.dest.id == task.id
      modifies `staticPool, task`staticPoolIndex
      ensures Placed(statics) && Exact(None, Occupied())
    {
      hide Eligible, Occupied, CheckDial;
      CheckDialOk(task.dest);
      if CheckDial(task.dest) == Ok {
        AddToStaticPool(task);
      }
    }

    /** The node may have become dialable: bring the pool up to date about it. */
    method UpdateStaticPool(id: Id)
      requires Known() && Placed(statics) && Exact(Some(id), Occupied())
      requires id in statics && statics[id].staticPoolIndex >= 0 ==>
                 Eligible(cfg, statics[id].dest) && id !in Occupied()
      modifies `staticPool, tasks`staticPoolIndex
      ensures Placed(statics) && Exact(None, Occupied())
    {
      hide Eligible, Occupied;
      if id in statics && statics[id].staticPoolIndex < 0 {
        Offer(statics[id]);
      }
    }

    /** Put the task under way: it is marked as dialing and remembered from now on. */
    method StartDial(task: DialTask)
      requires InFlight() && Remembered() && task in tasks && task.dest.id == task.id && CheckDial(task.dest) == Ok
      requires |dialing| < cfg.maxActiveDials
      modifies `history, `dialing, `running, `dials
      ensures InFlight() && Remembered()
      ensures Occupied() == old(Occupied()) + {task.id} && dialing == old(dialing)[task.id := task]
      ensures |dialing| == old(|dialing|) + 1
      ensures dials == old(dials) + [Item(task.id, now)]
      ensures Marks(history) == old(Marks(history)) + {Mark(Item(task.id, now))}
    {
      hide InFlight, Remembered, Ids;
      Remember(task.dest.id);
      Launch(task);
    }

    method Remember(id: Id)
      requires Remembered() && id !in Ids(history)
      modifies `history, `dials
      ensures Remembered() && dials == old(dials) + [Item(id, now)]
      ensures Ids(history) == old(Ids(history)) + {id} && Marks(history) == old(Marks(history)) + {Mark(Item(id, now))}
    {
      hide Spaced, NextFirst, Ids, Single;
      SingleMore(history, Item(id, now + DIAL_HISTORY_EXPIRATION));
      history := Push(history, Item(id, now + DIAL_HISTORY_EXPIRATION));
      SpacedDial(dials, old(history), history, now, id);
      dials := dials + [Item(id, now)];
    }

    method Launch(task: DialTask)
      requires InFlight() && task in tasks && task.id !in dialing && |dialing| < cfg.maxActiveDials
      modifies `dialing, `running
      ensures InFlight() && dialing == old(dialing)[task.id := task] && |dialing| == old(|dialing|) + 1
    {
      hide Outstanding;
      OutstandingStart(dialing, running, task);
      dialing := dialing[task.id := task];
      running := running + {task};
    }

    /** The clock never goes back. */
    method Tick()
      requires Remembered()
      modifies `now
      ensures Remembered() && now >= old(now)
    {
      hide Spaced;
      var t: nat :| t >= now;
      SpacedLater(dials, history, now, t);
      now := t;
    }

    /** Start up to n static dials; the pool is empty if fewer were started. */
    method StartStaticDials(n: int) returns (started: nat, ghost picks: seq<Item>)
      requires Valid() && n == Room(cfg, Value())
      modifies `now, `history, `dialing, `running, `dials, `staticPool, tasks`staticPoolIndex
      ensures Valid() && started == |picks|
      ensures Picks(cfg, old(Value()), picks) && Value() == Started(old(Value()), picks)
      ensures started == 0 || started <= n
      ensures started < n ==> staticPool == []
      ensures Room(cfg, Value()) == n - started
    {
      hide Valid, Value, Waiting, Room, Dialed, Picks, Started;
      started, picks := 0, [];
      NonePicked(cfg, Value());
      while started < n && |staticPool| > 0
        invariant Valid() && started == |picks| && (started == 0 || started <= n)
        invariant Picks(cfg, old(Value()), picks) && Value() == Started(old(Value()), picks)
        invariant Room(cfg, Value()) == n - started
      {
        var idx: nat :| idx < |staticPool|;
        ghost var v := Value();
        ghost var d := StartStatic(idx);
        OneMorePick(cfg, old(Value()), picks, v, d);
        started, picks := started + 1, picks + [d];
      }
    }

    method StartStatic(idx: nat) returns (ghost d: Item)
      requires Valid() && idx < |staticPool| && Room(cfg, Value()) > 0
      modifies `now, `history, `dialing, `running, `dials, `staticPool, tasks`staticPoolIndex
      ensures Valid() && |staticPool| == old(|staticPool|) - 1 && d.id in old(Value()).statics
      ensures d.id in Waiting(cfg, old(Value())) && old(Value()).now <= d.exp
      ensures Value() == Dialed(old(Value()), d, old(Value()).statics[d.id]).(own := old(Value()).own + {d.id})
      ensures Room(cfg, Value()) == old(Room(cfg, Value())) - 1
    {
      hide Valid, Waiting, Dests, Own, Marks;
      PoolWaits(idx);
      var task := staticPool[idx];
      StartFromPool(idx);
      DestsMore(old(dialing), task);
      OwnMore(old(dialing), statics, task);
      d := Item(task.id, now);
    }

    method StartFromPool(idx: nat)
      requires Valid() && idx < |staticPool| && |dialing| < cfg.maxActiveDials
      modifies `now, `history, `dialing, `running, `dials, `staticPool, tasks`staticPoolIndex
      ensures Valid() && |staticPool| == old(|staticPool|) - 1 && |dialing| == old(|dialing|) + 1 && old(now) <= now
      ensures var task := old(staticPool[idx]);
              dialing == old(dialing)[task.id := task] && dials == old(dials) + [Item(task.id, now)] &&
              Marks(history) == old(Marks(history)) + {Mark(Item(task.id, now))}
    {
      hide Known, Placed, Exact, InFlight, Remembered, Occupied, CheckDial, Marks;
      Tick();
      PoolTaskOk(idx);
      var task := staticPool[idx];
      ghost var busy := Occupied();
      StartDial(task);
      Withdraw(idx, busy);
    }

    /** The tasks in the pool are the static nodes that may be dialed. */
    lemma PoolWaits(idx: nat)
      requires Valid() && idx < |staticPool|
      ensures staticPool[idx].id in Waiting(cfg, Value()) && staticPool[idx].id in statics
      ensures statics[staticPool[idx].id] == staticPool[idx] && staticPool[idx].id !in dialing
      ensures Value().statics[staticPool[idx].id] == staticPool[idx].dest
    {
      OccupiedIsBusy();
    }

    lemma NobodyWaits()
      requires Known() && Placed(statics) && Exact(None, Occupied()) && staticPool == []
      ensures Waiting(cfg, Value()) == {}
    {
      OccupiedIsBusy();
    }

    lemma PoolTaskOk(idx: nat)
      requires Known() && Placed(statics) && Exact(None, Occupied()) && idx < |staticPool|
      ensures staticPool[idx] in tasks && staticPool[idx].dest.id == staticPool[idx].id
      ensures CheckDial(staticPool[idx].dest) == Ok
    {
      CheckDialOk(staticPool[idx].dest);
    }

    lemma ExactElsewhere(id: Id, busy: set<Id>, busy': set<Id>)
      requires Exact(None, busy) && busy' <= busy <= busy' + {id}
      ensures Exact(Some(id), busy')
      ensures id in statics && statics[id].staticPoolIndex >= 0 ==> Eligible(cfg, statics[id].dest) && id !in busy'
    {
    }

    lemma ExactWhenEmpty(id: Id)
      requires Placed(statics) && Exact(None, Occupied()) && staticPool == []
      ensures Exact(None, Occupied() + {id})
    {
    }

    method NewTask(n: Node, ghost busy: set<Id>) returns (task: DialTask)
      requires Known() && InFlight() && Placed(statics) && Exact(None, busy)
      modifies `tasks
      ensures Known() && InFlight() && Placed(statics) && Exact(None, busy)
      ensures fresh(task) && tasks == old(tasks) + {task}
      ensures task.dest == n && task.id == n.id && task.staticPoolIndex == -1
    {
      hide Eligible, Outstanding;
      task := new DialTask(n);
      tasks := tasks + {task};
    }

    /** A node from discovery.  It is received only with the static pool empty, so no task waiting
        in the pool can be for the node dialed here. */
    method OnNode(n: Node) returns (ghost task: DialTask?)
      requires Valid() && staticPool == [] && |dialing| < cfg.maxActiveDials
      modifies `tasks, `now, `history, `dialing, `running, `dials
      ensures Valid() && old(tasks) <= tasks && fresh(tasks - old(tasks)) && old(now) <= now
      ensures old(CheckDial(n)) != Ok ==> task == null && unchanged(this)
      ensures old(CheckDial(n)) == Ok ==> task != null && fresh(task) && task.id == n.id && task.dest == n
      ensures old(CheckDial(n)) == Ok ==>
                n.id !in old(dialing) && dialing == old(dialing)[n.id := task] &&
                dials == old(dials) + [Item(n.id, now)] &&
                Marks(history) == old(Marks(history)) + {Mark(Item(n.id, now))}
    {
      hide Known, InFlight, Placed, Exact, Occupied, Remembered, CheckDial, Marks;
      task := null;
      if CheckDial(n) == Ok {
        NotDialing(n);
        var t := NewTask(n, Occupied());
        ExactWhenEmpty(n.id);
        Tick();
        StartDial(t);
        task := t;
      }
    }

    lemma NotDialing(n: Node)
      requires CheckDial(n) == Ok
      ensures n.id !in dialing
    {
    }

    method Finish(task: DialTask) returns (id: Id)
      requires Known() && InFlight() && task in running
      modifies `dialing, `running
      ensures InFlight() && running == old(running) - {task} && id == task.id && dialing == old(dialing) - {id}
      ensures Occupied() <= old(Occupied()) <= Occupied() + {id}
    {
      hide Outstanding, Ids;
      id := task.dest.id;
      OutstandingDone(dialing, running, task);
      dialing := dialing - {id};
      running := running - {task};
    }

    /** A dial task reported back. */
    method OnDone(task: DialTask)
      requires Valid() && task in running
      modifies `dialing, `running, `staticPool, tasks`staticPoolIndex
      ensures Valid() && running == old(running) - {task} && dialing == old(dialing) - {task.id}
    {
      hide Known, InFlight, Placed, Exact, Occupied, Remembered;
      ghost var busy := Occupied();
      var id := Finish(task);
      ExactElsewhere(id, busy, Occupied());
      UpdateStaticPool(id);
    }

    /** A connection became a peer. */
    method OnAddPeer(id: Id, dialed: bool)
      requires Valid()
      modifies `dialPeers, `peers, `staticPool, tasks`staticPoolIndex
      ensures Valid() && peers == old(peers) + {id} && dialPeers == old(dialPeers) + if dialed then 1 else 0
    {
      hide Known, Placed, Exact, InFlight, Remembered, Occupied;
      if dialed { dialPeers := dialPeers + 1; }
      ghost var busy := Occupied();
      Connect(id);
      StaticAt(id);
      if id in statics && statics[id].staticPoolIndex >= 0 {
        Withdraw(statics[id].staticPoolIndex, busy);
      } else {
        ExactOutside(id, busy);
      }
    }

    lemma StaticAt(id: Id)
      requires Known() && Placed(statics)
      ensures id in statics ==> statics[id] in tasks && statics[id].id == id
      ensures id in statics && statics[id].staticPoolIndex >= 0 ==> statics[id].staticPoolIndex < |staticPool|
      ensures id in statics && statics[id].staticPoolIndex >= 0 ==>
                staticPool[statics[id].staticPoolIndex] == statics[id]
    {
    }

    lemma ExactOutside(id: Id, busy: set<Id>)
      requires Exact(None, busy) && (id in statics ==> statics[id].staticPoolIndex < 0)
      ensures Exact(None, busy + {id})
    {
    }

    method Connect(id: Id)
      modifies `peers
      ensures peers == old(peers) + {id} && Occupied() == old(Occupied()) + {id}
    {
      peers := peers + {id};
    }

    /** A peer's connection ended. */
    method OnRemPeer(id: Id, dialed: bool)
      requires Valid()
      modifies `dialPeers, `peers, `staticPool, tasks`staticPoolIndex
      ensures Valid() && peers == old(peers) - {id} && dialPeers == old(dialPeers) - if dialed then 1 else 0
    {
      hide Known, InFlight, Placed, Exact, Remembered, Occupied;
      if dialed { dialPeers := dialPeers - 1; }
      ghost var busy := Occupied();
      Disconnect(id);
      ExactElsewhere(id, busy, Occupied());
      UpdateStaticPool(id);
    }

    method Disconnect(id: Id)
      modifies `peers
      ensures peers == old(peers) - {id} && Occupied() <= old(Occupied()) <= Occupied() + {id}
    {
      peers := peers - {id};
    }

    method OnAddStatic(n: Node) returns (ghost task: DialTask?)
      requires Valid()
      modifies `tasks, `statics, `staticPool, tasks`staticPoolIndex
      ensures Valid() && old(tasks) <= tasks && fresh(tasks - old(tasks))
      ensures n.id in old(statics) ==> task == null && unchanged(this)
      ensures n.id !in old(statics) ==> task != null && fresh(task) && task.id == n.id && task.dest == n
      ensures n.id !in old(statics) ==> statics == old(statics)[n.id := task]
    {
      hide Known, Placed, Exact, InFlight, Remembered, Occupied;
      task := null;
      if n.id !in statics {
        var t := NewTask(n, Occupied());
        Register(t, Occupied());
        Offer(t);
        task := t;
      }
    }

    method Register(task: DialTask, ghost busy: set<Id>)
      requires Known() && Placed(statics) && Exact(None, busy)
      requires task in tasks && task.id !in statics && task.staticPoolIndex == -1
      modifies `statics
      ensures Known() && Placed(statics) && Exact(Some(task.id), busy) && statics == old(statics)[task.id := task]
    {
      hide Eligible;
      statics := statics[task.id := task];
    }

    method OnRemStatic(id: Id)
      requires Valid()
      modifies `statics, `staticPool, tasks`staticPoolIndex
      ensures Valid() && statics == old(statics) - {id}
    {
      hide Known, Placed, Exact, InFlight, Remembered, Occupied;
      if id in statics {
        var task := statics[id];
        StaticAt(id);
        Unregister(id, Occupied());
        if task.staticPoolIndex >= 0 {
          Discard(task.staticPoolIndex, old(statics), Occupied());
        } else {
          PlacedWithout(old(statics), id);
        }
      }
    }

    method Unregister(id: Id, ghost busy: set<Id>)
      requires Known() && Exact(None, busy)
      modifies `statics
      ensures Known() && Exact(None, busy) && statics == old(statics) - {id}
    {
      hide Eligible;
      statics := statics - {id};
    }

    lemma PlacedWithout(known: map<Id, DialTask>, id: Id)
      requires Placed(known) && id in known && known[id].staticPoolIndex < 0
      ensures Placed(known - {id})
    {
    }

    method Forget() returns (id: Id)
      requires Remembered() && |history| > 0 && history[0].exp < now
      modifies `history
      ensures Remembered() && |history| == old(|history|) - 1
      ensures Occupied() <= old(Occupied()) <= Occupied() + {id}
      ensures Marks(history) == old(Marks(history)) - {old(history[0])}
    {
      hide Spaced, Ids, Single;
      var x, h := Pop(history);
      SingleLess(history, x, h);
      SpacedExpire(dials, history, now, x, h);
      history, id := h, x.id;
    }

    /** Drop what has expired and offer the static tasks it held back. */
    method ExpireHistory()
      requires Valid()
      modifies `now, `history, `staticPool, tasks`staticPoolIndex
      ensures Valid() && old(now) <= now && Marks(history) == Unexpired(old(Marks(history)), now)
    {
      hide Known, Placed, Exact, InFlight, Occupied, Single, Spaced, Marks, Unexpired;
      Tick();
      while |history| > 0 && history[0].exp < now
        invariant Valid() && old(now) <= now && Unexpired(Marks(history), now) == Unexpired(old(Marks(history)), now)
        decreases |history|
      {
        ghost var busy := Occupied();
        ExpiredMark(Marks(history), history[0], now);
        var id := Forget();
        ExactElsewhere(id, busy, Occupied());
        UpdateStaticPool(id);
      }
      NoneExpired(history, now);
    }

    /** A running static task looks its node up again; the endpoint may change, the identity not. */
    method Resolve(task: DialTask, n: Node)
      requires Valid() && task in running && n.id == task.id
      modifies task`dest
      ensures Valid() && task.dest == n
    {
      task.dest := n;
    }

    /** One turn of the loop, as the rules say.  Together with the dials under way it starts no more than
        two for every dialed peer that is missing. */
    method Turn(event: Event) returns (ghost c: Choice)
      requires Valid()
      modifies this, tasks
      ensures Valid() && old(tasks) <= tasks && fresh(tasks - old(tasks))
      ensures Proper(cfg, old(Value()), c) && Value() == Turned(cfg, old(Value()), event, c)
      ensures old(dials) <= dials
      ensures |dials| > old(|dials|) ==>
                old(|dialing|) + |dials| - old(|dials|) <= 2 * (cfg.maxDialPeers - old(dialPeers))
    {
      hide Known, Placed, Exact, InFlight, Remembered, Occupied, Dests, Own, Waiting, Taken, Picks, Started;
      var slots := FreeDialSlots();
      var started;
      ghost var picks;
      started, picks := StartStaticDials(slots);
      if staticPool == [] { NobodyWaits(); }
      ghost var time := Select(event, slots - started);
      c := Choice(picks, time);
      DialsWithin(cfg, old(Value()), event, c);
    }

    /** Take one event; nodes are only received while there are free slots. */
    method Select(event: Event, slots: int) returns (ghost time: nat)
      requires Valid() && slots == Room(cfg, Value()) && (slots > 0 ==> staticPool == [])
      modifies this, tasks
      ensures Valid() && old(tasks) <= tasks && fresh(tasks - old(tasks))
      ensures old(now) <= time && Value() == Taken(cfg, old(Value()), event, time)
    {
      hide Valid, Value, Taken, Room;
      match event {
      case NodeIn(n) => if slots > 0 { ReceiveNode(n); } else { NotReceived(cfg, Value(), n, now); }
      case TaskDone(id) => Complete(id);
      case TaskResolved(n) => LookUp(n);
      case PeerAdded(id, dialed) => AddPeer(id, dialed);
      case PeerRemoved(id, dialed) => RemovePeer(id, dialed);
      case StaticAdded(n) => AddStatic(n);
      case StaticRemoved(id) => RemoveStatic(id);
      case HistoryExpired => Expire();
      }
      time := now;
    }

    method ReceiveNode(n: Node)
      requires Valid() && staticPool == [] && Room(cfg, Value()) > 0
      modifies `tasks, `now, `history, `dialing, `running, `dials
      ensures Valid() && old(tasks) <= tasks && fresh(tasks - old(tasks))
      ensures old(now) <= now && Value() == Taken(cfg, old(Value()), NodeIn(n), now)
    {
      hide Valid, Dests, Own, Busy, Marks, CheckDial, Eligible, Taken, Occupied, Mark;
      CheckDialOk(n);
      OccupiedIsBusy();
      ghost var v := Value();
      ghost var task := OnNode(n);
      if task != null {
        NodeTaken(cfg, v, n, now);
        DestsMore(old(dialing), task);
        OwnOther(old(dialing), statics, task);
      } else {
        NodeLeft(cfg, v, n, now);
      }
    }

    /** The task of a node reports back, if one is under way. */
    method Complete(id: Id)
      requires Valid()
      modifies `dialing, `running, `staticPool, tasks`staticPoolIndex
      ensures Valid() && Value() == Taken(cfg, old(Value()), TaskDone(id), now)
    {
      hide Valid, Value, Taken;
      if id in dialing { Report(id); } else { NothingDone(id); }
    }

    method Report(id: Id)
      requires Valid() && id in dialing
      modifies `dialing, `running, `staticPool, tasks`staticPoolIndex
      ensures Valid() && Value() == Taken(cfg, old(Value()), TaskDone(id), now)
    {
      hide Valid, Dests, Own, Marks, Taken;
      TakenDone(cfg, Value(), id, now);
      Reported(id);
      OnDone(dialing[id]);
      DestsLess(old(dialing), id);
      OwnLess(old(dialing), statics, id);
    }

    lemma NothingDone(id: Id)
      requires id !in dialing
      ensures Taken(cfg, Value(), TaskDone(id), now) == Value()
    {
      hide Taken, Marks;
      TakenDone(cfg, Value(), id, now);
      assert Dests(dialing) - {id} == Dests(dialing) && Own(dialing, statics) - {id} == Own(dialing, statics);
    }

    method LookUp(n: Node)
      requires Valid()
      modifies tasks`dest
      ensures Valid() && Value() == Taken(cfg, old(Value()), TaskResolved(n), now)
    {
      hide Valid, Marks, Busy, Unexpired, Dialed, Eligible, Room;
      if n.id in dialing {
        Reported(n.id);
        TasksNamed();
        Resolve(dialing[n.id], n);
        assert Dests(dialing) == old(Dests(dialing))[n.id := n];
        assert Dests(statics) ==
          if n.id in Own(dialing, statics) then old(Dests(statics))[n.id := n] else old(Dests(statics));
      }
    }

    lemma TasksNamed()
      requires Valid()
      ensures forall id <- dialing :: dialing[id].id == id && dialing[id] in tasks
      ensures forall id <- statics :: statics[id].id == id && statics[id] in tasks
    {
    }

    method AddStatic(n: Node)
      requires Valid()
      modifies `tasks, `statics, `staticPool, tasks`staticPoolIndex
      ensures Valid() && old(tasks) <= tasks && fresh(tasks - old(tasks))
      ensures Value() == Taken(cfg, old(Value()), StaticAdded(n), now)
    {
      hide Valid, Dests, Own, Marks, Busy, Unexpired, Dialed, Eligible, Room;
      ghost var task := OnAddStatic(n);
      if task != null {
        DestsMore(old(statics), task);
        OwnNew(dialing, old(statics), task);
      }
    }

    method RemoveStatic(id: Id)
      requires Valid()
      modifies `statics, `staticPool, tasks`staticPoolIndex
      ensures Valid() && Value() == Taken(cfg, old(Value()), StaticRemoved(id), now)
    {
      hide Valid, Dests, Own, Marks, Taken;
      TakenUnlisted(cfg, Value(), id, now);
      OnRemStatic(id);
      DestsLess(old(statics), id);
      OwnGone(dialing, old(statics), id);
    }

    method AddPeer(id: Id, dialed: bool)
      requires Valid()
      modifies `dialPeers, `peers, `staticPool, tasks`staticPoolIndex
      ensures Valid() && Value() == Taken(cfg, old(Value()), PeerAdded(id, dialed), now)
    {
      hide Valid, Dests, Own, Marks, Busy, Unexpired, Dialed, Eligible, Room;
      OnAddPeer(id, dialed);
    }

    method RemovePeer(id: Id, dialed: bool)
      requires Valid()
      modifies `dialPeers, `peers, `staticPool, tasks`staticPoolIndex
      ensures Valid() && Value() == Taken(cfg, old(Value()), PeerRemoved(id, dialed), now)
    {
      hide Valid, Dests, Own, Marks, Busy, Unexpired, Dialed, Eligible, Room;
      OnRemPeer(id, dialed);
    }

    method Expire()
      requires Valid()
      modifies `now, `history, `staticPool, tasks`staticPoolIndex
      ensures Valid() && old(now) <= now && Value() == Taken(cfg, old(Value()), HistoryExpired, now)
    {
      hide Valid, Dests, Own, Marks, Busy, Unexpired, Dialed, Eligible, Room;
      ExpireHistory();
    }

    lemma Reported(id: Id)
      requires Valid() && id in dialing
      ensures dialing[id] in running && dialing[id].id == id && dialing[id] in tasks
    {
    }

    /** Every run of the loop: whatever arrives, in whatever order. */
    method Loop(events: seq<Event>) returns (ghost cs: seq<Choice>)
      requires Valid()
      modifies this, tasks
      ensures Valid() && old(tasks) <= tasks && fresh(tasks - old(tasks))
      ensures |cs| == |events| && Possible(cfg, old(Value()), events, cs)
      ensures Value() == Run(cfg, old(Value()), events, cs)
      ensures old(dials) <= dials
    {
      hide Valid, Value, Proper, Turned, Run, Possible;
      cs := [];
      RunStarts(cfg, Value());
      for i := 0 to |events|
        invariant Valid() && old(tasks) <= tasks && fresh(tasks - old(tasks))
        invariant |cs| == i && Possible(cfg, old(Value()), events[..i], cs) && old(dials) <= dials
        invariant Value() == Run(cfg, old(Value()), events[..i], cs)
      {
        ghost var c := Turn(events[i]);
        RunMore(cfg, old(Value()), events, i, cs, c);
        cs := cs + [c];
      }
      assert events[..|events|] == events;
    }

    /** Shutdown waits for one completion per entry of the dialing map: each wait is for a task that is
        still to report, and none is left at the end. */
    method Stop() returns (received: nat)
      requires Valid()
      modifies `running
      ensures received == |dialing| == old(|running|) && running == {}
    {
      hide Outstanding;
      received := 0;
      ghost var left := dialing;
      while received < |dialing|
        invariant Outstanding(left, running) && |left| + received == |dialing|
        invariant |running| + received == old(|running|)
      {
        SomeOutstanding(left, running);
        ghost var task :| task in running;
        OutstandingDone(left, running, task);
        left := left - {task.id};
        running := running - {task};
        received := received + 1;
      }
      NoneOutstanding(left, running);
    }

    lemma Named()
      requires Valid()
      ensures WellNamed(Value()) && Value().own <= Value().statics.Keys
    {
    }

    /** What the invariant says in the scheduler's own terms. */
    lemma PoolExact()
      requires Valid()
      ensures forall t <- staticPool :: t.id in statics && statics[t.id] == t
      ensures forall id <- statics :: statics[id] in staticPool <==> CheckDial(statics[id].dest) == Ok
      ensures forall i, j :: 0 <= i < j < |staticPool| ==> staticPool[i] != staticPool[j]
      ensures |dialing| <= if cfg.maxActiveDials > 0 then cfg.maxActiveDials else 0
      ensures forall j, k :: 0 <= j < k < |dials| && dials[j].id == dials[k].id ==>
                dials[j].exp + 35_000_000_000 < dials[k].exp
    {
      forall id <- statics ensures statics[id] in staticPool <==> CheckDial(statics[id].dest) == Ok {
        CheckDialOk(statics[id].dest);
      }
    }

    constructor (config: Settings)
      ensures Valid() && tasks == {} && peers == {} && dialPeers == 0
      ensures Value() == View(map[], map[], {}, {}, 0, {}, 0, [])
      ensures cfg == config.(maxActiveDials :=
                if config.maxActiveDials == 0 then DEFAULT_MAX_PENDING_PEERS else config.maxActiveDials)
    {
      cfg := if config.maxActiveDials == 0 then config.(maxActiveDials := DEFAULT_MAX_PENDING_PEERS) else config;
      dialing, peers, dialPeers, statics, staticPool, history := map[], {}, 0, map[], [], [];
      tasks, running, dials := {}, {}, [];
      now := 0;
    }
  }

  lemma SomeOutstanding(dialing: map<Id, DialTask>, running: set<DialTask>)
    requires Outstanding(dialing, running) && |dialing| > 0
    ensures running != {}
  {
    var id :| id in dialing.Keys;
    assert dialing[id] in running;
  }

  lemma NoneOutstanding(dialing: map<Id, DialTask>, running: set<DialTask>)
    requires Outstanding(dialing, running) && |dialing| == 0
    ensures running == {}
  {
  }
}

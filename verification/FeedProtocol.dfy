/** The protocol of event/feed.go as atomic steps of any number of goroutines.  A step is what one
    goroutine does while it holds the mutex, the send lock, or both ends of the removal channel. */
module FeedProtocol {
  import opened FeedLedger
  import opened FeedAccount
  import opened Sorting

  /** Who took the token out of the send lock, and how far it has come. */
  datatype Lock = Free | Removing(ch: Chan) | Merging | Sending

  /** Deleting a case that is not in the list would panic. */
  datatype State =
    | Up(cases: seq<Case>, inbox: seq<Case>, live: multiset<Case>, pending: multiset<Case>,
         lock: Lock, active: nat, acct: Account)
    | Panic

  datatype Step =
    | Subscribe(ch: Chan)
    | CheckInbox(ch: Chan)
    | TakeLock(ch: Chan)
    | DeleteLocked
    | LockForSend
    | MergeInbox(typeMatches: bool)
    | Deliver(index: nat)
    | Rendezvous(ch: Chan)
    | Finish

  const NOTHING := Account(multiset{}, [], multiset{}, multiset{})

  const INIT := Up([RemoveSub], [], multiset{}, multiset{}, Free, 0, NOTHING)

  /** What the feed lets each step wait for. */
  ghost predicate Enabled(st: State, step: Step) {
    st.Up? &&
    match step
    case Subscribe(_) => true
    case CheckInbox(ch) => SendTo(ch) in st.live
    case TakeLock(ch) => st.lock == Free && SendTo(ch) in st.pending
    case DeleteLocked => st.lock.Removing?
    case LockForSend => st.lock == Free
    case MergeInbox(_) => st.lock == Merging
    case Deliver(i) => st.lock == Sending && 1 <= i < st.active <= |st.cases|
    case Rendezvous(ch) => st.lock == Sending && st.active > 1 && SendTo(ch) in st.pending
    case Finish => st.lock == Sending && st.active == 1
  }

  function IndexOf(s: seq<Case>, c: Case): (i: int)
    ensures i == -1 <==> c !in s
    ensures i != -1 ==> 0 <= i < |s| && s[i] == c && c !in s[..i]
  {
    if s == [] then -1
    else if s[0] == c then 0
    else
      var i := IndexOf(s[1..], c);
      assert s == [s[0]] + s[1..];
      if i == -1 then -1 else assert s[..i + 1] == [s[0]] + s[1..][..i]; i + 1
  }

  function CheckedInbox(st: State, c: Case): State
    requires st.Up?
  {
    var i := IndexOf(st.inbox, c);
    if i >= 0 then st.(inbox := Removed(st.inbox, i), live := st.live - multiset{c})
    else st.(live := st.live - multiset{c}, pending := st.pending + multiset{c})
  }

  /** The running Send takes a removal: the active prefix shrinks if the case was in there. */
  function Received(st: State, c: Case): State
    requires st.Up?
  {
    var i := IndexOf(st.cases, c);
    if i < 0 then Panic
    else
      st.(cases := Removed(st.cases, i), pending := st.pending - multiset{c},
          active := if i < st.active then st.active - 1 else st.active,
          acct := Dropped(st.acct, c, i < st.active))
  }

  function Merge(st: State, typeMatches: bool): State
    requires st.Up?
  {
    var cases := st.cases + st.inbox;
    var st' := st.(cases := cases, inbox := []);
    if typeMatches then
      st'.(lock := Sending, active := |cases|,
           acct := Account(multiset(cases) - multiset{RemoveSub}, [], multiset{}, multiset{}))
    else st'.(lock := Free)
  }

  ghost function Next(st: State, step: Step): State
    requires Enabled(st, step)
  {
    match step
    case Subscribe(ch) => st.(inbox := st.inbox + [SendTo(ch)], live := st.live + multiset{SendTo(ch)})
    case CheckInbox(ch) => CheckedInbox(st, SendTo(ch))
    case TakeLock(ch) => st.(lock := Removing(ch))
    case DeleteLocked =>
      var c := SendTo(st.lock.ch);
      var i := IndexOf(st.cases, c);
      if i < 0 then Panic
      else st.(cases := Removed(st.cases, i), pending := st.pending - multiset{c}, lock := Free)
    case LockForSend => st.(lock := Merging)
    case MergeInbox(typeMatches) => Merge(st, typeMatches)
    case Deliver(i) =>
      st.(cases := Swapped(st.cases, i, st.active - 1), active := st.active - 1,
          acct := st.acct.(log := st.acct.log + [st.cases[i]]))
    case Rendezvous(ch) => Received(st, SendTo(ch))
    case Finish => st.(lock := Free)
  }

  /** What every interleaving keeps. */
  ghost predicate Inv(st: State) {
    st.Up? && Sound(st.cases, st.inbox, st.live, st.pending) &&
    (st.lock.Removing? ==> SendTo(st.lock.ch) in st.pending) &&
    (st.lock == Sending ==> Progress(st.cases, st.active, st.acct))
  }

  lemma PresentCases(s: seq<Case>)
    requires RemoveFirst(s)
    ensures multiset(s) - multiset{RemoveSub} == Subs(s)
  {
    assert s == [s[0]] + s[1..];
  }

  lemma MergeStep(st: State, typeMatches: bool)
    requires Inv(st) && st.lock == Merging
    ensures Inv(Merge(st, typeMatches))
  {
    MergeKeeps(st.cases, st.inbox, st.live, st.pending);
    var cases := st.cases + st.inbox;
    PresentCases(cases);
    Started(cases, [], st.live, st.pending);
    hide Sound, Progress;
  }

  lemma ReceiveStep(st: State, c: Case)
    requires Inv(st) && st.lock == Sending && c in st.pending && c.SendTo?
    ensures Inv(Received(st, c))
  {
    hide Sound, Progress, IndexOf;
    var i := IndexOf(st.cases, c);
    TakeFound(st.cases, st.inbox, st.live, st.pending, c, i);
    RemovalCounted(st.cases, st.active, i, st.acct);
  }

  lemma CheckStep(st: State, c: Case)
    requires Inv(st) && c in st.live && c.SendTo?
    ensures Inv(CheckedInbox(st, c))
  {
    hide Sound, Progress, IndexOf;
    var i := IndexOf(st.inbox, c);
    if i >= 0 {
      LeaveKeeps(st.cases, st.inbox, st.live, st.pending, i);
    } else {
      PassKeeps(st.cases, st.inbox, st.live, st.pending, c);
    }
  }

  lemma DeliverStep(st: State, i: nat)
    requires Inv(st) && Enabled(st, Deliver(i))
    ensures Inv(Next(st, Deliver(i)))
  {
    hide Sound, Progress;
    Sent(st.cases, st.active, i, st.acct);
    SwapKeeps(st.cases, i, st.active - 1, st.inbox, st.live, st.pending);
  }

  lemma DeleteStep(st: State)
    requires Inv(st) && st.lock.Removing?
    ensures Inv(Next(st, DeleteLocked))
  {
    hide Sound, Progress, IndexOf;
    var c := SendTo(st.lock.ch);
    TakeFound(st.cases, st.inbox, st.live, st.pending, c, IndexOf(st.cases, c));
  }

  lemma InvStep(st: State, step: Step)
    requires Inv(st) && Enabled(st, step)
    ensures Inv(Next(st, step))
  {
    hide Sound, Progress, IndexOf;
    match step
    case Subscribe(ch) => JoinKeeps(st.cases, st.inbox, st.live, st.pending, SendTo(ch));
    case CheckInbox(ch) => CheckStep(st, SendTo(ch));
    case DeleteLocked => DeleteStep(st);
    case MergeInbox(typeMatches) => MergeStep(st, typeMatches);
    case Deliver(i) => DeliverStep(st, i);
    case Rendezvous(ch) => ReceiveStep(st, SendTo(ch));
    case TakeLock(_) =>
    case LockForSend =>
    case Finish =>
  }

  /** The state after a schedule: the steps chosen one after the other, by whichever goroutines, with
      those that have to wait left out. */
  ghost function After(steps: seq<Step>): State {
    if steps == [] then INIT else Taking(After(steps[..|steps| - 1]), steps[|steps| - 1])
  }

  ghost function Taking(st: State, step: Step): State {
    if Enabled(st, step) then Next(st, step) else st
  }

  lemma AfterNext(steps: seq<Step>, step: Step)
    ensures After(steps + [step]) == Taking(After(steps), step)
  {
    hide Taking;
    assert (steps + [step])[..|steps|] == steps;
  }

  lemma {:induction false} EveryRun(steps: seq<Step>)
    ensures Inv(After(steps))
    decreases |steps|
  {
    hide Next, Enabled;
    if steps != [] {
      var st, step := After(steps[..|steps| - 1]), steps[|steps| - 1];
      EveryRun(steps[..|steps| - 1]);
      if Enabled(st, step) { InvStep(st, step); }
    } else {
      assert [RemoveSub][1..] == [];
    }
  }

  /** The properties in the protocol's own terms: no run panics; per channel, the cases in the inbox
      and in the case list are as many as its open subscriptions, and the removals past the inbox
      are at most its cases in the list; the removal case stays first. */
  lemma FeedSafety(steps: seq<Step>, ch: Chan)
    ensures var st := After(steps);
            st.Up? && |st.cases| >= 1 && st.cases[0] == RemoveSub &&
            multiset(st.inbox)[SendTo(ch)] + multiset(st.cases)[SendTo(ch)] ==
            st.live[SendTo(ch)] + st.pending[SendTo(ch)] &&
            st.pending[SendTo(ch)] <= multiset(st.cases)[SendTo(ch)]
  {
    hide After, Progress;
    EveryRun(steps);
    var st := After(steps);
    PresentCases(st.cases);
    assert Subs(st.cases)[SendTo(ch)] == multiset(st.cases)[SendTo(ch)];
    assert (multiset(st.inbox) + Subs(st.cases))[SendTo(ch)] == (st.live + st.pending)[SendTo(ch)];
  }

  /** A Send that may finish has sent once to every case it found, except those removed before, and
      leaves in the list those it sent to, except those removed since. */
  lemma SendComplete(steps: seq<Step>)
    requires Enabled(After(steps), Finish)
    ensures var st := After(steps);
            multiset(st.acct.log) + st.acct.early == st.acct.present &&
            Subs(st.cases) + st.acct.late == multiset(st.acct.log)
  {
    hide After, Sound, Progress;
    EveryRun(steps);
    Finished(After(steps).cases, After(steps).acct);
  }

  /** A removal past the inbox is never stuck: it can take the lock, hand itself to the running Send,
      or whoever is in its way can go on without waiting for a receiver. */
  lemma RemovalNeverStuck(steps: seq<Step>, ch: Chan)
    requires After(steps).Up? && SendTo(ch) in After(steps).pending
    ensures var st := After(steps);
            Enabled(st, TakeLock(ch)) || Enabled(st, Rendezvous(ch)) || Enabled(st, DeleteLocked) ||
            Enabled(st, MergeInbox(true)) || Enabled(st, Finish)
    ensures After(steps).lock.Removing? ==> Next(After(steps), DeleteLocked).Up?
  {
    hide After, Sound;
    EveryRun(steps);
    if After(steps).lock.Removing? { DeleteStep(After(steps)); }
  }

  // ---- One Send among the calls of the others ----

  /** The calls that other goroutines may complete while a Send holds the lock. */
  predicate OfOthers(step: Step) {
    step.Subscribe? || step.CheckInbox?
  }

  /** The calls of the others among the steps. */
  ghost function Calls(steps: seq<Step>): seq<Step> {
    if steps == [] then []
    else
      var before, last := Calls(steps[..|steps| - 1]), steps[|steps| - 1];
      if OfOthers(last) then before + [last] else before
  }

  ghost function Deliveries(steps: seq<Step>): nat {
    if steps == [] then 0
    else Deliveries(steps[..|steps| - 1]) + if steps[|steps| - 1].Deliver? then 1 else 0
  }

  /** The channels whose removal was begun. */
  ghost function Unsubscribed(calls: seq<Step>): multiset<Case> {
    if calls == [] then multiset{}
    else
      var before, last := Unsubscribed(calls[..|calls| - 1]), calls[|calls| - 1];
      if last.CheckInbox? then before + multiset{SendTo(last.ch)} else before
  }

  /** The steps of one Send: take the lock, merge the inbox, then sends and removals in any order with
      calls of the others between them, until nobody is left to send to. */
  ghost function SendSteps(mid: seq<Step>): seq<Step> {
    [LockForSend, MergeInbox(true)] + mid + [Finish]
  }

  /** After these steps Send is where they say: each of its own could be taken in its place. */
  ghost predicate Underway(before: seq<Step>, mid: seq<Step>) {
    if mid == [] then After(before).Up? && After(before).lock == Free
    else
      var init, last := mid[..|mid| - 1], mid[|mid| - 1];
      Underway(before, init) &&
      (OfOthers(last) || ((last.Deliver? || last.Rendezvous?) && Enabled(Sofar(before, init), last)))
  }

  ghost function Sofar(before: seq<Step>, mid: seq<Step>): State {
    After(before + [LockForSend, MergeInbox(true)] + mid)
  }

  lemma SofarNext(before: seq<Step>, mid: seq<Step>, step: Step)
    ensures Sofar(before, mid + [step]) == Taking(Sofar(before, mid), step)
  {
    hide Taking, After;
    var steps := before + [LockForSend, MergeInbox(true)] + mid;
    AfterNext(steps, step);
    assert before + [LockForSend, MergeInbox(true)] + (mid + [step]) == steps + [step];
  }

  lemma LockAndMerge(st: State)
    requires st.Up? && st.lock == Free
    ensures Taking(st, LockForSend) == st.(lock := Merging)
    ensures Taking(st.(lock := Merging), MergeInbox(true)) == Merge(st.(lock := Merging), true)
  {
    hide Merge;
  }

  lemma SofarStart(before: seq<Step>)
    requires After(before).Up? && After(before).lock == Free
    ensures Enabled(After(before), LockForSend)
    ensures Sofar(before, []) == Merge(After(before).(lock := Merging), true)
  {
    hide After, Taking, Merge;
    LockAndMerge(After(before));
    AfterNext(before, LockForSend);
    AfterNext(before + [LockForSend], MergeInbox(true));
    assert before + [LockForSend] + [MergeInbox(true)] == before + [LockForSend, MergeInbox(true)] + [];
  }

  /** What is true of a Send under way: it has counted its sends, and whatever was removed or still
      waits to be was waiting before or was unsubscribed by one of the calls. */
  ghost predicate OnRecord(st0: State, st: State, mid: seq<Step>)
    requires st0.Up?
  {
    st.Up? && st.lock == Sending && st.acct.present == Subs(st0.cases) + multiset(st0.inbox) &&
    |st.acct.log| == Deliveries(mid) && Owed(st0.pending, st.acct, st.pending, mid)
  }

  ghost predicate Owed(before: multiset<Case>, r: Account, pending: multiset<Case>, mid: seq<Step>) {
    r.early + r.late + pending <= before + Unsubscribed(Calls(mid))
  }

  lemma {:induction false} Recorded(before: seq<Step>, mid: seq<Step>)
    requires Underway(before, mid)
    ensures After(before).Up? && OnRecord(After(before), Sofar(before, mid), mid)
    decreases |mid|
  {
    hide After, Sofar, OnRecord, Next, Enabled, Inv;
    if mid == [] {
      EveryRun(before);
      SofarStart(before);
      RecordBegins(After(before));
    } else {
      var init, last := mid[..|mid| - 1], mid[|mid| - 1];
      assert mid == init + [last];
      Recorded(before, init);
      SofarNext(before, init, last);
      EveryRun(before + [LockForSend, MergeInbox(true)] + init);
      SofarIs(before, init);
      RecordGoesOn(After(before), Sofar(before, init), init, last);
    }
  }

  lemma SofarIs(before: seq<Step>, mid: seq<Step>)
    ensures Sofar(before, mid) == After(before + [LockForSend, MergeInbox(true)] + mid)
  {
  }

  lemma RecordBegins(st0: State)
    requires Inv(st0)
    ensures OnRecord(st0, Merge(st0.(lock := Merging), true), [])
  {
    hide Progress;
    MergeKeeps(st0.cases, st0.inbox, st0.live, st0.pending);
    PresentCases(st0.cases + st0.inbox);
  }

  lemma RecordGoesOn(st0: State, st: State, mid: seq<Step>, step: Step)
    requires st0.Up? && OnRecord(st0, st, mid) && Inv(st)
    requires OfOthers(step) || ((step.Deliver? || step.Rendezvous?) && Enabled(st, step))
    ensures OnRecord(st0, Taking(st, step), mid + [step])
  {
    hide Sound, Progress, Owed, Unsubscribed, Calls;
    assert (mid + [step])[..|mid|] == mid;
    match step
    case Subscribe(_) => OwedSame(st0.pending, st.acct, st.pending, mid, step);
    case Deliver(i) => OwedSame(st0.pending, st.acct, st.pending, mid, step);
    case CheckInbox(ch) => OwedMore(st0.pending, st.acct, st.pending, mid, ch);
    case Rendezvous(ch) =>
      TakeFound(st.cases, st.inbox, st.live, st.pending, SendTo(ch), IndexOf(st.cases, SendTo(ch)));
      OwedPaid(st0.pending, st.acct, st.pending, mid, ch, IndexOf(st.cases, SendTo(ch)) < st.active);
    case _ =>
  }

  lemma OwedSame(before: multiset<Case>, r: Account, pending: multiset<Case>, mid: seq<Step>, step: Step)
    requires Owed(before, r, pending, mid) && !step.CheckInbox?
    ensures Owed(before, r, pending, mid + [step])
    ensures step.Deliver? ==> forall c :: Owed(before, r.(log := r.log + [c]), pending, mid + [step])
  {
    CallsNext(mid, step);
  }

  lemma CallsNext(mid: seq<Step>, step: Step)
    ensures Calls(mid + [step]) == if OfOthers(step) then Calls(mid) + [step] else Calls(mid)
    ensures Unsubscribed(Calls(mid + [step])) ==
            Unsubscribed(Calls(mid)) + if step.CheckInbox? then multiset{SendTo(step.ch)} else multiset{}
  {
    assert (mid + [step])[..|mid|] == mid;
    if OfOthers(step) { assert (Calls(mid) + [step])[..|Calls(mid)|] == Calls(mid); }
  }

  lemma OwedMore(before: multiset<Case>, r: Account, pending: multiset<Case>, mid: seq<Step>, ch: Chan)
    requires Owed(before, r, pending, mid)
    ensures Owed(before, r, pending, mid + [CheckInbox(ch)])
    ensures Owed(before, r, pending + multiset{SendTo(ch)}, mid + [CheckInbox(ch)])
  {
    CallsNext(mid, CheckInbox(ch));
  }

  lemma OwedPaid(before: multiset<Case>, r: Account, pending: multiset<Case>, mid: seq<Step>, ch: Chan, active: bool)
    requires Owed(before, r, pending, mid) && SendTo(ch) in pending
    ensures Owed(before, Dropped(r, SendTo(ch), active), pending - multiset{SendTo(ch)}, mid + [Rendezvous(ch)])
  {
    CallsNext(mid, Rendezvous(ch));
    var r', c := Dropped(r, SendTo(ch), active), multiset{SendTo(ch)};
    assert r'.early + r'.late == r.early + r.late + c;
    assert r'.early + r'.late + (pending - c) == r.early + r.late + pending;
  }

  /** What one Send did, from the state it began in to the state it left, with the calls that other
      goroutines made in between: every case present was sent to exactly once or removed before; only
      what waited to be removed, or was unsubscribed by a call, was removed; and the list holds what
      was sent to and not removed since. */
  ghost predicate Served(st0: State, st: State, calls: seq<Step>, nsent: nat)
    requires st0.Up? && st.Up?
  {
    var r := st.acct;
    st.lock == Free && r.present == Subs(st0.cases) + multiset(st0.inbox) && nsent == |r.log| &&
    multiset(r.log) + r.early == r.present && Subs(st.cases) + r.late == multiset(r.log) &&
    r.early + r.late <= st0.pending + Unsubscribed(calls)
  }

  lemma SendServes(before: seq<Step>, mid: seq<Step>)
    requires Underway(before, mid) && Sofar(before, mid).Up? && Sofar(before, mid).active == 1
    ensures After(before).Up? && After(before + SendSteps(mid)).Up?
    ensures After(before + SendSteps(mid)) == Sofar(before, mid).(lock := Free)
    ensures Served(After(before), After(before + SendSteps(mid)), Calls(mid), Deliveries(mid))
  {
    hide After, Sofar, Progress, Underway;
    var st := Sofar(before, mid);
    Recorded(before, mid);
    SofarNext(before, mid, Finish);
    SofarIs(before, mid);
    SofarIs(before, mid + [Finish]);
    assert before + [LockForSend, MergeInbox(true)] + (mid + [Finish]) == before + SendSteps(mid);
    EveryRun(before + [LockForSend, MergeInbox(true)] + mid);
    Finished(st.cases, st.acct);
    assert st.acct.early + st.acct.late <= st.acct.early + st.acct.late + st.pending;
  }

  /** If nobody waited to be removed and nobody unsubscribes, everyone present is sent to. */
  lemma AllServed(st0: State, st: State, calls: seq<Step>, nsent: nat)
    requires st0.Up? && st.Up? && Served(st0, st, calls, nsent)
    requires st0.pending == multiset{} && forall i :: 0 <= i < |calls| ==> calls[i].Subscribe?
    ensures nsent == |Subs(st0.cases) + multiset(st0.inbox)| && multiset(st.acct.log) == st.acct.present
  {
    NobodyLeft(calls);
    assert st.acct.early <= st.acct.early + st.acct.late;
    assert st.acct.early == multiset{};
    assert |multiset(st.acct.log)| == |st.acct.log|;
  }

  lemma {:induction false} NobodyLeft(calls: seq<Step>)
    requires forall i :: 0 <= i < |calls| ==> calls[i].Subscribe?
    ensures Unsubscribed(calls) == multiset{}
    decreases |calls|
  {
    if calls != [] { NobodyLeft(calls[..|calls| - 1]); }
  }
}

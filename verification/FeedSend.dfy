/** The feed of event/feed.go on its array.  The case list is a slice: an array and a length.  `Send`
    works on a shrinking prefix of the same array, and a removal shifts the array under it.  The feed
    records the steps of the protocol it takes, and always stands where they lead. */
module FeedSend {
  import opened FeedLedger
  import opened FeedAccount
  import opened FeedProtocol
  import opened Sorting

  /** The first position of the channel, or -1 when it is not there. */
  method Find(a: array<Case>, n: nat, ch: Chan) returns (index: int)
    requires n <= a.Length
    ensures index == -1 <==> SendTo(ch) !in a[..n]
    ensures index != -1 ==> 0 <= index < n && a[index] == SendTo(ch) && SendTo(ch) !in a[..index]
  {
    for i := 0 to n
      invariant SendTo(ch) !in a[..i]
    {
      if a[i] == SendTo(ch) { return i; }
    }
    return -1;
  }

  method Delete(a: array<Case>, n: nat, index: nat)
    requires index < n <= a.Length
    modifies a
    ensures a[..n - 1] == Removed(old(a[..n]), index)
  {
    for i := index to n - 1
      invariant forall j {:trigger a[j]} :: 0 <= j < a.Length && !(index <= j < i) ==> a[j] == old(a[j])
      invariant forall j {:trigger a[j]} :: index <= j < i ==> a[j] == old(a[j + 1])
    {
      a[i] := a[i + 1];
    }
    ghost var s := old(a[..n]);
    assert forall j :: index <= j < n - 1 ==> Removed(s, index)[j] == s[j + 1];
  }

  /** Swap the case with the last one of the first n, in a list of length len. */
  method Deactivate(a: array<Case>, len: nat, n: nat, index: nat)
    requires index < n <= len <= a.Length
    modifies a
    ensures a[..len] == Swapped(old(a[..len]), index, n - 1)
  {
    a[index], a[n - 1] := a[n - 1], a[index];
  }

  class Feed {
    var sendCases: array<Case>
    var len: nat
    var inbox: seq<Case>
    /** Subscriptions not yet unsubscribed, and those whose removal has passed the inbox. */
    var live: multiset<Case>
    var pending: multiset<Case>
    /** All steps taken so far, by any goroutine. */
    ghost var trace: seq<Step>

    ghost predicate Valid()
      reads this, sendCases
    {
      len <= sendCases.Length && Shows(After(trace), sendCases[..len], inbox, live, pending)
    }

    constructor ()
      ensures Valid() && trace == [] && live == multiset{} == pending && inbox == [] && fresh(sendCases)
    {
      sendCases := new Case[1](_ => RemoveSub);
      len, inbox, live, pending, trace := 1, [], multiset{}, multiset{}, [];
    }

    method Subscribe(ch: Chan)
      requires Valid()
      modifies `inbox, `live, `trace
      ensures Valid() && trace == old(trace) + [Step.Subscribe(ch)]
      ensures live == old(live) + multiset{SendTo(ch)} && inbox == old(inbox) + [SendTo(ch)]
    {
      hide After;
      AfterNext(trace, Step.Subscribe(ch));
      inbox, live := inbox + [SendTo(ch)], live + multiset{SendTo(ch)};
      trace := trace + [Step.Subscribe(ch)];
    }

    /** The first half of remove, done under the mutex: take the channel out of the inbox, or go on
        to wait for the send lock or for a running Send. */
    method CheckInbox(ch: Chan)
      requires Valid() && SendTo(ch) in live
      modifies `inbox, `live, `pending, `trace
      ensures Valid() && trace == old(trace) + [Step.CheckInbox(ch)]
      ensures live == old(live) - multiset{SendTo(ch)}
      ensures multiset(inbox) == multiset(old(inbox)) - multiset{SendTo(ch)}
      ensures pending == if SendTo(ch) in old(inbox) then old(pending) else old(pending) + multiset{SendTo(ch)}
    {
      hide After, IndexOf, Removed, Next, Enabled;
      var c := SendTo(ch);
      AfterNext(trace, Step.CheckInbox(ch));
      Checked(After(trace), ch);
      var index := FindSeq(inbox, c);
      live := live - multiset{c};
      if index != -1 {
        inbox := Removed(inbox, index);
      } else {
        pending := pending + multiset{c};
      }
      trace := trace + [Step.CheckInbox(ch)];
    }

    /** The second half of remove when it gets the send lock: the channel is found, and its case
        deleted in the array as it stands. */
    method RemoveLocked(ch: Chan)
      requires Valid() && After(trace).lock == Free && SendTo(ch) in pending
      modifies this, sendCases
      ensures Valid() && trace == old(trace) + [TakeLock(ch)] + [DeleteLocked] && After(trace).lock == Free
      ensures pending == old(pending) - multiset{SendTo(ch)} && unchanged(`inbox) && unchanged(`live)
    {
      hide After, IndexOf, Inv, Deleted;
      LockedRemoval(trace, ch);
      var index := Take(ch, After(trace));
      trace := trace + [TakeLock(ch)] + [DeleteLocked];
    }

    /** Find the channel of a waiting removal and delete its case. */
    method Take(ch: Chan, ghost st: State) returns (index: nat)
      requires Inv(st) && len <= sendCases.Length && Shows(st, sendCases[..len], inbox, live, pending)
      requires SendTo(ch) in pending
      modifies `len, `pending, sendCases
      ensures index == IndexOf(st.cases, SendTo(ch)) && 1 <= index < |st.cases| && len == old(len) - 1
      ensures Shows(Deleted(st, SendTo(ch)), sendCases[..len], inbox, live, pending)
      ensures pending == old(pending) - multiset{SendTo(ch)}
    {
      hide Removed, Sound, IndexOf, Progress;
      var found := Find(sendCases, len, ch);
      FoundIs(st.cases, SendTo(ch), found);
      TakeFound(st.cases, inbox, live, pending, SendTo(ch), found);
      index := found;
      Delete(sendCases, len, index);
      len := len - 1;
      pending := pending - multiset{SendTo(ch)};
    }

    /** What the other goroutines do meanwhile: some of the calls that are still to come. */
    method Others(calls: seq<Step>, from: nat) returns (to: nat)
      requires Valid() && from <= |calls| && forall i :: 0 <= i < |calls| ==> OfOthers(calls[i])
      modifies `inbox, `live, `pending, `trace
      ensures Valid() && from <= to <= |calls| && trace == old(trace) + calls[from..to]
    {
      hide After, Shows;
      to := from;
      var more: bool := *;
      while to < |calls| && more
        invariant Valid() && from <= to <= |calls| && trace == old(trace) + calls[from..to]
      {
        Call(calls[to]);
        assert calls[from..to] + [calls[to]] == calls[from..to + 1];
        to := to + 1;
        more := *;
      }
    }

    /** One call; a subscription that is not open any more is not removed again. */
    method Call(call: Step)
      requires Valid() && OfOthers(call)
      modifies `inbox, `live, `pending, `trace
      ensures Valid() && trace == old(trace) + [call]
    {
      hide After;
      if call.Subscribe? {
        Subscribe(call.ch);
      } else if SendTo(call.ch) in live {
        CheckInbox(call.ch);
      } else {
        AfterNext(trace, call);
        trace := trace + [call];
      }
    }

    /** Append the inbox to the case list, in place when the capacity allows. */
    method Append()
      requires len <= sendCases.Length
      modifies this, sendCases
      ensures unchanged(`live) && unchanged(`pending) && unchanged(`trace)
      ensures inbox == [] && len <= sendCases.Length && sendCases[..len] == old(sendCases[..len] + inbox)
      ensures sendCases == old(sendCases) || fresh(sendCases)
    {
      var n := len + |inbox|;
      if n > sendCases.Length {
        var extra: nat :| true;
        var a := new Case[n + extra](_ => RemoveSub);
        forall i | 0 <= i < len { a[i] := sendCases[i]; }
        sendCases := a;
      }
      forall i | 0 <= i < |inbox| { sendCases[len + i] := inbox[i]; }
      len, inbox := n, [];
      assert sendCases[..len] == old(sendCases[..len] + inbox);
    }

    /** A Send is under way after these steps; the first k cases are still to be sent to. */
    ghost predicate Sending(before: seq<Step>, mid: seq<Step>, k: nat)
      reads this, sendCases
    {
      Valid() && trace == before + [LockForSend, MergeInbox(true)] + mid && Underway(before, mid) &&
      After(trace).lock == Lock.Sending && After(trace).active == k && 1 <= k <= len
    }

    /** Take the lock and merge the inbox. */
    method Begin()
      requires Valid() && After(trace).lock == Free
      modifies this, sendCases
      ensures Sending(old(trace), [], len) && (sendCases == old(sendCases) || fresh(sendCases))
    {
      hide After, Inv;
      ghost var before := trace;
      SofarStart(before);
      EveryRun(before + [LockForSend, MergeInbox(true)] + []);
      SofarIs(before, []);
      Append();
      trace := before + [LockForSend, MergeInbox(true)] + [];
      CasesThere(After(trace));
    }

    /** One case was chosen and its channel took the value. */
    method Deliver(cases: array<Case>, k: nat, i: nat, ghost before: seq<Step>, ghost mid: seq<Step>)
      requires cases == sendCases && Sending(before, mid, k) && 1 <= i < k
      modifies sendCases, `trace
      ensures Sending(before, mid + [Step.Deliver(i)], k - 1)
    {
      hide After, Underway, Swapped;
      ghost var s := sendCases[..len];
      UnderwayNext(before, mid, Step.Deliver(i));
      AfterNext(trace, Step.Deliver(i));
      Deactivate(cases, len, k, i);
      trace := trace + [Step.Deliver(i)];
      assert trace == before + [LockForSend, MergeInbox(true)] + (mid + [Step.Deliver(i)]);
    }

    /** A removal reached Send: delete the case, and shrink the active prefix if it was in there. */
    method Receive(cases: array<Case>, k: nat, ch: Chan, ghost before: seq<Step>, ghost mid: seq<Step>)
      returns (k': nat)
      requires cases == sendCases && Sending(before, mid, k) && SendTo(ch) in pending && k > 1
      modifies `len, `pending, `trace, sendCases
      ensures Sending(before, mid + [Rendezvous(ch)], k') && len == old(len) - 1 && k' <= k
      ensures ghost var index := IndexOf(old(sendCases[..len]), SendTo(ch));
              k' == (if index < k then k - 1 else k) &&
              After(trace).acct == Dropped(old(After(trace).acct), SendTo(ch), index < k)
    {
      hide After, Underway, IndexOf, Deleted, Inv, Dropped;
      HandedOver(trace, ch, k);
      UnderwayNext(before, mid, Rendezvous(ch));
      var index := Take(ch, After(trace));
      trace := trace + [Rendezvous(ch)];
      k' := if index < k then k - 1 else k;
      CasesThere(After(trace));
      assert trace == before + [LockForSend, MergeInbox(true)] + (mid + [Rendezvous(ch)]);
    }

    /** The calls of the others go on while Send is under way. */
    method Meanwhile(calls: seq<Step>, from: nat, k: nat, ghost before: seq<Step>, ghost mid: seq<Step>)
      returns (to: nat, ghost mid': seq<Step>)
      requires Sending(before, mid, k) && Paced(calls, from, mid)
      modifies `inbox, `live, `pending, `trace
      ensures Sending(before, mid', k) && Paced(calls, to, mid') && Deliveries(mid') == Deliveries(mid)
    {
      hide After, Underway;
      to := Others(calls, from);
      mid' := mid + calls[from..to];
      CallsAside(before, mid, calls[from..to]);
      CallsJoin(mid, calls[from..to]);
      assert calls[..from] + calls[from..to] == calls[..to];
      assert trace == before + [LockForSend, MergeInbox(true)] + mid';
    }

    /** Try every active case once without waiting; which channels have room is not known. */
    method TrySends(cases: array<Case>, k: nat, calls: seq<Step>, from: nat,
                    ghost before: seq<Step>, ghost mid: seq<Step>)
      returns (k': nat, nsent: nat, to: nat, ghost mid': seq<Step>)
      requires cases == sendCases && Sending(before, mid, k) && Paced(calls, from, mid)
      modifies sendCases, `inbox, `live, `pending, `trace
      ensures Sending(before, mid', k') && k' <= k && Paced(calls, to, mid')
      ensures Deliveries(mid') == Deliveries(mid) + nsent
    {
      hide After, Underway, Shows, Paced, Deliveries;
      k', nsent, to, mid' := k, 0, from, mid;
      var i := 1;
      while i < k'
        invariant Sending(before, mid', k') && k' <= k && i >= 1 && Paced(calls, to, mid')
        invariant Deliveries(mid') == Deliveries(mid) + nsent
        decreases k' - i
      {
        to, mid' := Meanwhile(calls, to, k', before, mid');
        var ready: bool := *;
        if ready {
          Deliver(cases, k', i, before, mid');
          StepCounted(calls, to, mid', Step.Deliver(i));
          k', nsent, mid' := k' - 1, nsent + 1, mid' + [Step.Deliver(i)];
        } else {
          i := i + 1;
        }
      }
    }

    /** Wait until a case is ready or a removal arrives. */
    method Select(cases: array<Case>, k: nat, calls: seq<Step>, from: nat,
                    ghost before: seq<Step>, ghost mid: seq<Step>)
      returns (k': nat, sent: bool, to: nat, ghost mid': seq<Step>)
      requires cases == sendCases && Sending(before, mid, k) && k > 1 && Paced(calls, from, mid)
      modifies `len, `inbox, `live, `pending, `trace, sendCases
      ensures Sending(before, mid', k') && len + k' < old(len) + k && Paced(calls, to, mid')
      ensures Deliveries(mid') == Deliveries(mid) + if sent then 1 else 0
    {
      hide After, Underway, Shows, Paced, Deliveries;
      to, mid' := Meanwhile(calls, from, k, before, mid);
      var removal: bool := *;
      if removal && pending != multiset{} {
        var c :| c in pending;
        WaitingIsSend(trace, sendCases[..len], inbox, live, pending, c);
        StepCounted(calls, to, mid', Rendezvous(c.ch));
        sent := false;
        k' := Receive(cases, k, c.ch, before, mid');
        mid' := mid' + [Rendezvous(c.ch)];
      } else {
        var chosen: nat :| 1 <= chosen < k;
        StepCounted(calls, to, mid', Step.Deliver(chosen));
        Deliver(cases, k, chosen, before, mid');
        k', sent, mid' := k - 1, true, mid' + [Step.Deliver(chosen)];
      }
    }

    /** One Send, while other goroutines make the given calls at any pace: as a run of the protocol it
        takes the lock, merges, and sends and removes until nobody is left, with the calls it saw in
        between.  So every case present is sent to exactly once unless it was removed before, nothing
        is removed but what waited for it or was unsubscribed by a call, the number of sends is
        returned, and without removals that is everyone. */
    method Send(calls: seq<Step>) returns (nsent: nat, seen: nat, ghost mid: seq<Step>)
      requires Valid() && After(trace).lock == Free && forall i :: 0 <= i < |calls| ==> OfOthers(calls[i])
      modifies this, sendCases
      ensures Valid() && seen <= |calls| && Calls(mid) == calls[..seen]
      ensures Underway(old(trace), mid) && trace == old(trace) + SendSteps(mid) && nsent == Deliveries(mid)
      ensures Served(old(After(trace)), After(trace), calls[..seen], nsent)
      ensures old(pending) == multiset{} && (forall i :: 0 <= i < seen ==> calls[i].Subscribe?) ==>
                nsent == |old(Subs(sendCases[..len]) + multiset(inbox))|
    {
      hide After, Underway, Paced, Deliveries, Served;
      ghost var before := trace;
      Begin();
      var cases, k := sendCases, len;
      nsent, seen, mid := 0, 0, [];
      PaceBegins(calls);
      while true
        invariant cases == sendCases && Sending(before, mid, k) && Paced(calls, seen, mid) && nsent == Deliveries(mid)
        decreases len + k
      {
        var n;
        k, n, seen, mid := TrySends(cases, k, calls, seen, before, mid);
        nsent := nsent + n;
        if k == 1 { break; }
        var sent;
        k, sent, seen, mid := Select(cases, k, calls, seen, before, mid);
        if sent { nsent := nsent + 1; }
      }
      SendServes(before, mid);
      PacedCalls(calls, seen, mid);
      if old(pending) == multiset{} && forall i :: 0 <= i < seen ==> calls[i].Subscribe? {
        AllServed(After(before), After(before + SendSteps(mid)), calls[..seen], nsent);
      }
      trace := before + SendSteps(mid);
    }
  }

  /** The feed's fields are what the protocol's state says. */
  ghost predicate Shows(st: State, cases: seq<Case>, inbox: seq<Case>, live: multiset<Case>, pending: multiset<Case>) {
    st.Up? && st.cases == cases && st.inbox == inbox && st.live == live && st.pending == pending
  }

  /** The search of the source in a list that is a value. */
  method FindSeq(s: seq<Case>, c: Case) returns (index: int)
    ensures index == IndexOf(s, c)
  {
    for i := 0 to |s|
      invariant c !in s[..i]
    {
      if s[i] == c {
        FirstIs(s, c, i);
        return i;
      }
    }
    assert s[..|s|] == s;
    return -1;
  }

  lemma FoundIs(s: seq<Case>, c: Case, found: int)
    requires found == -1 <==> c !in s
    requires found != -1 ==> 0 <= found < |s| && s[found] == c && c !in s[..found]
    ensures found == IndexOf(s, c)
  {
    hide IndexOf;
    if found != -1 { FirstIs(s, c, found); }
  }

  lemma Checked(st: State, ch: Chan)
    requires st.Up? && SendTo(ch) in st.live
    ensures Taking(st, Step.CheckInbox(ch)) == CheckedInbox(st, SendTo(ch))
  {
  }

  /** The first n calls have happened so far, in their order. */
  ghost predicate Paced(calls: seq<Step>, n: nat, mid: seq<Step>) {
    n <= |calls| && (forall i :: 0 <= i < |calls| ==> OfOthers(calls[i])) && Calls(mid) == calls[..n]
  }

  lemma PaceBegins(calls: seq<Step>)
    requires forall i :: 0 <= i < |calls| ==> OfOthers(calls[i])
    ensures Paced(calls, 0, []) && Deliveries([]) == 0
  {
  }

  lemma PacedCalls(calls: seq<Step>, n: nat, mid: seq<Step>)
    requires Paced(calls, n, mid)
    ensures n <= |calls| && Calls(mid) == calls[..n]
  {
  }

  /** A step of Send itself is not one of the calls. */
  lemma StepCounted(calls: seq<Step>, n: nat, mid: seq<Step>, step: Step)
    requires Paced(calls, n, mid) && !OfOthers(step)
    ensures Paced(calls, n, mid + [step])
    ensures Deliveries(mid + [step]) == Deliveries(mid) + if step.Deliver? then 1 else 0
  {
    CallsNext(mid, step);
    assert (mid + [step])[..|mid|] == mid;
  }

  lemma {:induction false} CallsJoin(mid: seq<Step>, calls: seq<Step>)
    requires forall i :: 0 <= i < |calls| ==> OfOthers(calls[i])
    ensures Calls(mid + calls) == Calls(mid) + calls && Deliveries(mid + calls) == Deliveries(mid)
    decreases |calls|
  {
    if calls == [] {
      assert mid + calls == mid && Calls(mid) + calls == Calls(mid);
    } else {
      var init, last := calls[..|calls| - 1], calls[|calls| - 1];
      CallsJoin(mid, init);
      assert (mid + calls)[..|mid + calls| - 1] == mid + init;
      assert Calls(mid) + init + [last] == Calls(mid) + calls;
    }
  }

  lemma WaitingIsSend(trace: seq<Step>, cases: seq<Case>, inbox: seq<Case>, live: multiset<Case>,
                      pending: multiset<Case>, c: Case)
    requires Shows(After(trace), cases, inbox, live, pending) && c in pending
    ensures c.SendTo?
  {
    hide After, Sound, Progress;
    EveryRun(trace);
    PendingIsSend(cases, inbox, live, pending, c);
  }

  /** The state without one case of a waiting removal, and without that removal. */
  ghost function Deleted(st: State, c: Case): State
    requires st.Up?
  {
    var i := IndexOf(st.cases, c);
    if i < 0 then Panic else st.(cases := Removed(st.cases, i), pending := st.pending - multiset{c})
  }

  /** Taking the lock and deleting comes to deleting. */
  lemma LockedRemoval(trace: seq<Step>, ch: Chan)
    requires After(trace).Up? && After(trace).lock == Free && SendTo(ch) in After(trace).pending
    ensures Inv(After(trace)) && Deleted(After(trace), SendTo(ch)).Up? && Deleted(After(trace), SendTo(ch)).lock == Free
    ensures After(trace + [TakeLock(ch)] + [DeleteLocked]) == Deleted(After(trace), SendTo(ch))
  {
    hide After, IndexOf, Removed, Sound, Progress;
    var st, c := After(trace), SendTo(ch);
    EveryRun(trace);
    TakeFound(st.cases, st.inbox, st.live, st.pending, c, IndexOf(st.cases, c));
    AfterNext(trace, TakeLock(ch));
    AfterNext(trace + [TakeLock(ch)], DeleteLocked);
  }

  /** A removal handed to a running Send. */
  lemma HandedOver(trace: seq<Step>, ch: Chan, k: nat)
    requires After(trace).Up? && After(trace).lock == Lock.Sending && After(trace).active == k > 1
    requires SendTo(ch) in After(trace).pending
    ensures var st, c := After(trace), SendTo(ch);
            var i := IndexOf(st.cases, c);
            Inv(st) && Enabled(st, Rendezvous(ch)) && Deleted(st, c).Up? && Deleted(st, c).lock == st.lock &&
            After(trace + [Rendezvous(ch)]) ==
              Deleted(st, c).(active := if i < k then k - 1 else k, acct := Dropped(st.acct, c, i < k))
    ensures Inv(After(trace + [Rendezvous(ch)]))
  {
    hide After, IndexOf, Removed, Sound, Progress, Dropped;
    var st, c := After(trace), SendTo(ch);
    EveryRun(trace);
    EveryRun(trace + [Rendezvous(ch)]);
    TakeFound(st.cases, st.inbox, st.live, st.pending, c, IndexOf(st.cases, c));
    AfterNext(trace, Rendezvous(ch));
  }

  /** Calls of the others change neither the list nor the Send under way. */
  lemma {:induction false} CallsAside(before: seq<Step>, mid: seq<Step>, calls: seq<Step>)
    requires Underway(before, mid) && forall i :: 0 <= i < |calls| ==> OfOthers(calls[i])
    requires Sofar(before, mid).Up?
    ensures Underway(before, mid + calls)
    ensures var st, st' := Sofar(before, mid), Sofar(before, mid + calls);
            st'.Up? && st'.lock == st.lock && st'.active == st.active && st'.cases == st.cases && st'.acct == st.acct
    decreases |calls|
  {
    hide After, Sofar, Underway;
    if calls == [] {
      assert mid + calls == mid;
    } else {
      var init, last := calls[..|calls| - 1], calls[|calls| - 1];
      CallsAside(before, mid, init);
      assert mid + calls == mid + init + [last];
      UnderwayNext(before, mid + init, last);
      SofarNext(before, mid + init, last);
    }
  }

  lemma CasesThere(st: State)
    requires Inv(st)
    ensures |st.cases| >= 1 && (st.lock == Lock.Sending ==> 1 <= st.active <= |st.cases|)
  {
  }

  lemma UnderwayNext(before: seq<Step>, mid: seq<Step>, step: Step)
    requires Underway(before, mid)
    requires OfOthers(step) || ((step.Deliver? || step.Rendezvous?) && Enabled(Sofar(before, mid), step))
    ensures Underway(before, mid + [step])
  {
    hide After, Sofar;
    assert (mid + [step])[..|mid|] == mid;
  }

  /** A position before which the case does not occur is the first. */
  lemma FirstIs(s: seq<Case>, c: Case, i: nat)
    requires i < |s| && s[i] == c && c !in s[..i]
    ensures IndexOf(s, c) == i
  {
    hide IndexOf;
    var j := IndexOf(s, c);
    assert c in s;
    assert forall k :: 0 <= k < i ==> s[..i][k] == s[k];
    assert forall k :: 0 <= k < j ==> s[..j][k] == s[k];
  }
}

/** Case lists of event/feed.go as sequences: what deleting, swapping and merging do to them, and the
    account of one run of Send. */
module FeedAccount {
  import opened FeedLedger
  import opened Sorting

  function Removed(s: seq<Case>, i: nat): (r: seq<Case>)
    requires i < |s|
    ensures multiset(r) == multiset(s) - multiset{s[i]}
  {
    assert s == s[..i] + [s[i]] + s[i + 1..];
    s[..i] + s[i + 1..]
  }

  /** The cases of a list after its first, as a multiset. */
  ghost function Subs(s: seq<Case>): multiset<Case>
  {
    if s == [] then multiset{} else multiset(s[1..])
  }

  /** What a run of Send found and did: the cases present when it took the lock, those it sent to in
      order, and those removed while still active and after they were sent to. */
  datatype Account = Account(present: multiset<Case>, log: seq<Case>, early: multiset<Case>, late: multiset<Case>)

  /** The account after the removal of a case, active or not. */
  function Dropped(r: Account, c: Case, active: bool): (r': Account)
    ensures r'.log == r.log && r'.present == r.present
  {
    if active then r.(early := r.early + multiset{c}) else r.(late := r.late + multiset{c})
  }

  /** Every case found is still active, was sent to, or was removed while active; a case that is not
      active any more was sent to. */
  ghost predicate Progress(s: seq<Case>, k: nat, r: Account) {
    1 <= k <= |s| &&
    multiset(s[1..k]) + multiset(r.log) + r.early == r.present &&
    multiset(s[k..]) + r.late == multiset(r.log)
  }

  /** A successful send moves a case from the active prefix to the rest. */
  lemma Sent(s: seq<Case>, k: nat, i: nat, r: Account)
    requires Progress(s, k, r) && 1 <= i < k
    ensures Progress(Swapped(s, i, k - 1), k - 1, r.(log := r.log + [s[i]]))
  {
    var t := Swapped(s, i, k - 1);
    assert t[1..k] == Swapped(s[1..k], i - 1, k - 2);
    assert t[1..k] == t[1..k - 1] + [s[i]];
    assert t[k - 1..] == [s[i]] + s[k..];
    hide Swapped;
  }

  lemma RemovedActive(s: seq<Case>, k: nat, i: nat, r: Account)
    requires Progress(s, k, r) && 1 <= i < k
    ensures Progress(Removed(s, i), k - 1, r.(early := r.early + multiset{s[i]}))
  {
    assert s[1..k] == s[1..i] + [s[i]] + s[i + 1..k];
    assert Removed(s, i)[1..k - 1] == s[1..i] + s[i + 1..k];
    assert Removed(s, i)[k - 1..] == s[k..];
  }

  lemma RemovedSent(s: seq<Case>, k: nat, i: nat, r: Account)
    requires Progress(s, k, r) && k <= i < |s|
    ensures Progress(Removed(s, i), k, r.(late := r.late + multiset{s[i]}))
  {
    assert s[k..] == s[k..i] + [s[i]] + s[i + 1..];
    assert Removed(s, i)[1..k] == s[1..k];
    assert Removed(s, i)[k..] == s[k..i] + s[i + 1..];
  }

  /** Removing the case at index i, active or not, is accounted for. */
  lemma RemovalCounted(s: seq<Case>, k: nat, i: nat, r: Account)
    requires Progress(s, k, r) && 1 <= i < |s|
    ensures Progress(Removed(s, i), if i < k then k - 1 else k, Dropped(r, s[i], i < k))
  {
    if i < k { RemovedActive(s, k, i, r); } else { RemovedSent(s, k, i, r); }
  }

  /** The removal channel keeps the first place and only that. */
  ghost predicate RemoveFirst(s: seq<Case>) {
    |s| >= 1 && s[0] == RemoveSub && RemoveSub !in s[1..]
  }

  ghost predicate Sound(s: seq<Case>, inbox: seq<Case>, live: multiset<Case>, pending: multiset<Case>) {
    RemoveFirst(s) && RemoveSub !in inbox && Balanced(multiset(inbox), Subs(s), live, pending)
  }

  lemma RemovedBehind(s: seq<Case>, i: nat)
    requires 1 <= i < |s|
    ensures Removed(s, i) != [] && Removed(s, i)[0] == s[0] && Removed(s, i)[1..] == Removed(s[1..], i - 1)
  {
    assert s[1..][..i - 1] == s[1..i] && s[1..][i..] == s[i + 1..];
  }

  lemma SubsRemoved(s: seq<Case>, i: nat)
    requires RemoveFirst(s) && 1 <= i < |s|
    ensures RemoveFirst(Removed(s, i)) && Subs(Removed(s, i)) == Subs(s) - multiset{s[i]}
  {
    hide Removed;
    RemovedBehind(s, i);
    assert multiset(s[1..])[RemoveSub] == 0;
    assert multiset(Removed(s, i)[1..])[RemoveSub] == 0;
  }

  lemma SwapKeeps(s: seq<Case>, i: nat, j: nat, inbox: seq<Case>, live: multiset<Case>, pending: multiset<Case>)
    requires Sound(s, inbox, live, pending) && 1 <= i < |s| && 1 <= j < |s|
    ensures Sound(Swapped(s, i, j), inbox, live, pending)
  {
    var t := Swapped(s, i, j);
    assert t[1..] == Swapped(s[1..], i - 1, j - 1);
    assert multiset(t[1..]) == multiset(s[1..]);
    assert forall c :: c in t[1..] ==> c in multiset(s[1..]);
  }

  lemma JoinKeeps(s: seq<Case>, inbox: seq<Case>, live: multiset<Case>, pending: multiset<Case>, c: Case)
    requires Sound(s, inbox, live, pending) && c.SendTo?
    ensures Sound(s, inbox + [c], live + multiset{c}, pending)
  {
    Joins(multiset(inbox), Subs(s), live, pending, c);
    assert multiset(inbox + [c]) == multiset(inbox) + multiset{c};
  }

  lemma LeaveKeeps(s: seq<Case>, inbox: seq<Case>, live: multiset<Case>, pending: multiset<Case>, i: nat)
    requires Sound(s, inbox, live, pending) && i < |inbox| && inbox[i] in live
    ensures Sound(s, Removed(inbox, i), live - multiset{inbox[i]}, pending)
  {
    LeavesInbox(multiset(inbox), Subs(s), live, pending, inbox[i]);
  }

  lemma PassKeeps(s: seq<Case>, inbox: seq<Case>, live: multiset<Case>, pending: multiset<Case>, c: Case)
    requires Sound(s, inbox, live, pending) && c !in inbox && c in live
    ensures Sound(s, inbox, live - multiset{c}, pending + multiset{c})
  {
    PassesInbox(multiset(inbox), Subs(s), live, pending, c);
  }

  lemma PendingIsSend(s: seq<Case>, inbox: seq<Case>, live: multiset<Case>, pending: multiset<Case>, c: Case)
    requires Sound(s, inbox, live, pending) && c in pending
    ensures c.SendTo?
  {
    Taken(multiset(inbox), Subs(s), live, pending, c);
  }

  lemma Started(s: seq<Case>, inbox: seq<Case>, live: multiset<Case>, pending: multiset<Case>)
    requires Sound(s, inbox, live, pending)
    ensures 1 <= |s| && Progress(s, |s|, Account(Subs(s), [], multiset{}, multiset{}))
  {
    assert s[1..|s|] == s[1..];
  }

  lemma Finished(s: seq<Case>, r: Account)
    requires Progress(s, 1, r)
    ensures multiset(r.log) + r.early == r.present && Subs(s) + r.late == multiset(r.log)
  {
    assert s[1..1] == [];
  }

  lemma MergeKeeps(s: seq<Case>, inbox: seq<Case>, live: multiset<Case>, pending: multiset<Case>)
    requires Sound(s, inbox, live, pending)
    ensures Sound(s + inbox, [], live, pending) && Subs(s + inbox) == Subs(s) + multiset(inbox)
  {
    Merged(multiset(inbox), Subs(s), live, pending);
    assert (s + inbox)[1..] == s[1..] + inbox;
  }

  /** A pending removal finds its channel behind the first case, and deleting it keeps the books. */
  lemma TakeFound(s: seq<Case>, inbox: seq<Case>, live: multiset<Case>, pending: multiset<Case>, c: Case, index: int)
    requires Sound(s, inbox, live, pending) && c in pending && c.SendTo?
    requires index == -1 <==> c !in s
    requires index != -1 ==> 0 <= index < |s| && s[index] == c
    ensures 1 <= index < |s| && Sound(Removed(s, index), inbox, live, pending - multiset{c})
  {
    Taken(multiset(inbox), Subs(s), live, pending, c);
    assert c in s[1..];
    SubsRemoved(s, index);
  }
}

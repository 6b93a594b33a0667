/** The bookkeeping of event/feed.go between open subscriptions and select cases.  A subscription is
    live until Unsubscribe, and pending once its removal has passed the inbox without finding its
    channel there.  All four collections are multisets: one channel may be subscribed many times. */
module FeedLedger {

  type Chan = nat

  datatype Case = RemoveSub | SendTo(ch: Chan)

  /** Every case belongs to an open subscription of its channel, and a removal past the inbox always
      has a case to take. */
  ghost predicate Balanced(inbox: multiset<Case>, cases: multiset<Case>, live: multiset<Case>, pending: multiset<Case>)
  {
    inbox + cases == live + pending && pending <= cases
  }

  lemma Joins(inbox: multiset<Case>, cases: multiset<Case>, live: multiset<Case>, pending: multiset<Case>, c: Case)
    requires Balanced(inbox, cases, live, pending)
    ensures Balanced(inbox + multiset{c}, cases, live + multiset{c}, pending)
  {
    assert inbox + multiset{c} + cases == inbox + cases + multiset{c};
  }

  lemma LeavesInbox(inbox: multiset<Case>, cases: multiset<Case>, live: multiset<Case>, pending: multiset<Case>,
                    c: Case)
    requires Balanced(inbox, cases, live, pending) && c in inbox && c in live
    ensures Balanced(inbox - multiset{c}, cases, live - multiset{c}, pending)
  {
    assert inbox - multiset{c} + cases == inbox + cases - multiset{c};
  }

  /** The inbox holds no case of the channel, so all of its cases are in the case list: one more
      than the removals already waiting for one. */
  lemma PassesInbox(inbox: multiset<Case>, cases: multiset<Case>, live: multiset<Case>, pending: multiset<Case>,
                    c: Case)
    requires Balanced(inbox, cases, live, pending) && c !in inbox && c in live
    ensures Balanced(inbox, cases, live - multiset{c}, pending + multiset{c})
  {
    assert cases[c] == (inbox + cases)[c] == live[c] + pending[c];
    assert live - multiset{c} + (pending + multiset{c}) == live + pending;
  }

  lemma Taken(inbox: multiset<Case>, cases: multiset<Case>, live: multiset<Case>, pending: multiset<Case>, c: Case)
    requires Balanced(inbox, cases, live, pending) && c in pending
    ensures c in cases && Balanced(inbox, cases - multiset{c}, live, pending - multiset{c})
  {
    assert 1 <= pending[c] <= cases[c];
    assert inbox + (cases - multiset{c}) == inbox + cases - multiset{c};
  }

  lemma Merged(inbox: multiset<Case>, cases: multiset<Case>, live: multiset<Case>, pending: multiset<Case>)
    requires Balanced(inbox, cases, live, pending)
    ensures Balanced(multiset{}, cases + inbox, live, pending)
  {
    assert multiset{} + (cases + inbox) == inbox + cases;
  }
}

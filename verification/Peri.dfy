/** The relay's choice of neighbours: eth/peri.go. */
module Peri {
  import opened Sorting

  type Id = int

  datatype IdScore = IdScore(id: Id, score: real)

  ghost function Ids(s: seq<IdScore>): set<Id> {
    set x | x in s :: x.id
  }

  ghost predicate Distinct(s: seq<IdScore>) {
    forall i, j :: 0 <= i < j < |s| ==> s[i].id != s[j].id
  }

  /** Where the best n of an order begin: the orders are worst first. */
  function From(s: seq<IdScore>, n: int): (k: nat)
    ensures k <= |s|
  {
    if n < 0 then |s| else if |s| - n > 0 then |s| - n else 0
  }

  /** The peers that keep their place: the best by blocks and the best by transactions. */
  ghost function Reserve(block: seq<IdScore>, tx: seq<IdScore>, b: int, t: int): set<Id> {
    Ids(block[From(block, b)..]) + Ids(tx[From(tx, t)..])
  }

  lemma {:induction false} DistinctCount(s: seq<IdScore>)
    requires Distinct(s)
    ensures |Ids(s)| == |s|
  {
    if s != [] {
      var init, last := s[..|s| - 1], s[|s| - 1];
      DistinctCount(init);
      assert s == init + [last];
      assert Ids(s) == Ids(init) + {last.id};
      assert last.id !in Ids(init);
    }
  }

  lemma BestCount(s: seq<IdScore>, n: int)
    requires Distinct(s)
    ensures |Ids(s[From(s, n)..])| == if n < 0 then 0 else if n < |s| then n else |s|
  {
    DistinctCount(s[From(s, n)..]);
  }

  /** The branch for an over-full reserve is taken exactly when a slot count is negative. */
  lemma OverFullExactly(block: seq<IdScore>, tx: seq<IdScore>, b: int, t: int)
    requires Distinct(block) && Distinct(tx) && |block| == |tx| > b + t
    ensures |Reserve(block, tx, b, t)| > b + t <==> b < 0 || t < 0
  {
    var bs, ts := Ids(block[From(block, b)..]), Ids(tx[From(tx, t)..]);
    BestCount(block, b);
    BestCount(tx, t);
    hide Ids;
    assert |bs + ts| == |bs| + |ts - bs|;
    assert bs == {} ==> bs + ts == ts;
    assert ts == {} ==> bs + ts == bs;
    assert |ts - bs| <= |ts|;
  }

  method ReserveBest(s: seq<IdScore>, n: int, reserve: set<Id>) returns (reserve': set<Id>)
    ensures reserve' == reserve + Ids(s[From(s, n)..])
  {
    reserve' := reserve;
    var i := |s|;
    while i > From(s, n)
      invariant From(s, n) <= i <= |s| && reserve' == reserve + Ids(s[i..])
    {
      i := i - 1;
      reserve' := reserve' + {s[i].id};
      assert s[i..] == [s[i]] + s[i + 1..];
    }
  }

  ghost function Members(ids: seq<Id>): set<Id> {
    set x | x in ids
  }

  method Others(s: seq<IdScore>, reserve: set<Id>) returns (rest: seq<Id>)
    requires Distinct(s)
    ensures NoRepeats(rest) && Members(rest) == Ids(s) - reserve
  {
    rest := [];
    for i := 0 to |s|
      invariant NoRepeats(rest) && Members(rest) == Ids(s[..i]) - reserve
    {
      assert s[..i + 1] == s[..i] + [s[i]];
      assert s[i].id !in Ids(s[..i]) && Ids(s[..i + 1]) == Ids(s[..i]) + {s[i].id};
      if s[i].id !in reserve {
        assert s[i].id !in Members(rest);
        assert Members(rest + [s[i].id]) == Members(rest) + {s[i].id};
        rest := rest + [s[i].id];
      }
    }
    assert s[..|s|] == s;
  }

  lemma {:induction false} MembersCount(ids: seq<Id>)
    requires NoRepeats(ids)
    ensures |Members(ids)| == |ids|
  {
    if ids != [] {
      var init, last := ids[..|ids| - 1], ids[|ids| - 1];
      MembersCount(init);
      assert ids == init + [last];
      assert Members(ids) == Members(init) + {last};
    }
  }

  /** The peers to disconnect: exactly as many as exceed the slots, no one twice, and nobody who is
      among the best in either order. */
  method Select(block: seq<IdScore>, tx: seq<IdScore>, b: nat, t: nat) returns (drop: seq<Id>)
    requires Distinct(block) && Distinct(tx) && Ids(block) == Ids(tx)
    ensures |drop| == if |tx| > b + t then |tx| - b - t else 0
    ensures NoRepeats(drop) && Members(drop) <= Ids(tx) - Reserve(block, tx, b, t)
  {
    hide Ids, From, NoRepeats, Members;
    var reserve := ReserveBest(block, b, {});
    reserve := ReserveBest(tx, t, reserve);
    assert reserve == Reserve(block, tx, b, t);
    var remove := Others(tx, reserve);
    drop := [];
    EmptyList();
    if |tx| > b + t {
      EnoughToRemove(block, tx, b, t, remove);
      var shuffled := Shuffle(remove);
      Permuted(remove, shuffled);
      drop := shuffled[..|tx| - b - t];
      Prefix(shuffled, |tx| - b - t);
    }
  }

  lemma EmptyList()
    ensures NoRepeats<Id>([]) && Members([]) == {}
  {
  }

  lemma EnoughToRemove(block: seq<IdScore>, tx: seq<IdScore>, b: nat, t: nat, remove: seq<Id>)
    requires Distinct(block) && Distinct(tx) && Ids(block) == Ids(tx) && |tx| > b + t
    requires NoRepeats(remove) && Members(remove) == Ids(tx) - Reserve(block, tx, b, t)
    ensures |remove| >= |tx| - b - t && |Reserve(block, tx, b, t)| <= b + t
  {
    hide NoRepeats, Members, Distinct;
    DistinctCount(block);
    DistinctCount(tx);
    MembersCount(remove);
    OverFullExactly(block, tx, b, t);
    hide Ids, Reserve;
    assert |Ids(tx) - Reserve(block, tx, b, t)| >= |Ids(tx)| - |Reserve(block, tx, b, t)|;
  }

  lemma Permuted(a: seq<Id>, b: seq<Id>)
    requires NoRepeats(a) && multiset(a) == multiset(b)
    ensures NoRepeats(b) && Members(b) == Members(a)
  {
    NoRepeatsPermuted(a, b);
  }

  lemma Prefix(a: seq<Id>, n: nat)
    requires NoRepeats(a) && n <= |a|
    ensures NoRepeats(a[..n]) && Members(a[..n]) <= Members(a)
  {
  }

  /** Peers on the no-drop list come last in an order. */
  ghost predicate NoDropLast(s: seq<IdScore>, noDrop: set<Id>) {
    forall i, j :: 0 <= i < j < |s| && s[i].id in noDrop ==> s[j].id in noDrop
  }

  lemma NoDropReserved(s: seq<IdScore>, noDrop: set<Id>, n: nat, id: Id)
    requires Distinct(s) && NoDropLast(s, noDrop) && |Ids(s) * noDrop| <= n && id in Ids(s) && id in noDrop
    ensures id in Ids(s[From(s, n)..])
  {
    var i :| 0 <= i < |s| && s[i].id == id;
    if i < From(s, n) {
      DistinctCount(s[i..]);
      SubsetCount(Ids(s[i..]), Ids(s) * noDrop);
    } else {
      assert s[i] in s[From(s, n)..];
    }
  }

  /** If they fit into the slots of one order, no-drop peers are never selected. */
  lemma NoDropKept(block: seq<IdScore>, tx: seq<IdScore>, b: nat, t: nat, noDrop: set<Id>, drop: seq<Id>, id: Id)
    requires Distinct(block) && Distinct(tx) && Ids(block) == Ids(tx)
    requires NoDropLast(block, noDrop) && NoDropLast(tx, noDrop)
    requires Members(drop) <= Ids(tx) - Reserve(block, tx, b, t)
    requires |Ids(tx) * noDrop| <= if b > t then b else t
    ensures id in noDrop ==> id !in Members(drop)
  {
    hide Distinct, Ids, NoDropLast, Members, From;
    if id in noDrop && id in Ids(tx) {
      if b > t { NoDropReserved(block, noDrop, b, id); } else { NoDropReserved(tx, noDrop, t, id); }
    }
  }
}

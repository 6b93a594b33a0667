/** How eth/peri.go records arrivals, scores the peers by them, and disconnects. */
module PeriScores {
  import opened Peri
  import opened Sorting

  type Hash = int

  datatype Block = Block(hash: Hash, number: nat)

  /** For every item its first arrival, and for every item and peer when that peer last sent it. */
  datatype Arrivals<!K> = Arrivals(first: map<K, int>, perPeer: map<K, map<Id, int>>)

  /** Nobody was earlier than the first. */
  ghost predicate Timed<K>(a: Arrivals<K>) {
    a.first.Keys == a.perPeer.Keys &&
    forall k <- a.first, id <- a.perPeer[k] :: a.first[k] <= a.perPeer[k][id]
  }

  function NoArrivals<K>(): (a: Arrivals<K>)
    ensures Timed(a) && a.first == map[]
  {
    Arrivals(map[], map[])
  }

  /** Record that the peer sent the item at that time; another goroutine may have taken a later time
      and come here first. */
  function Record<K>(a: Arrivals<K>, k: K, id: Id, time: int): (a': Arrivals<K>)
    requires Timed(a)
    ensures Timed(a') && a'.first.Keys == a.first.Keys + {k} && id in a'.perPeer[k] && a'.perPeer[k][id] == time
    ensures a'.first[k] == if k in a.first && a.first[k] <= time then a.first[k] else time
  {
    if k in a.first then
      Arrivals(if time < a.first[k] then a.first[k := time] else a.first, a.perPeer[k := a.perPeer[k][id := time]])
    else
      Arrivals(a.first[k := time], a.perPeer[k := map[id := time]])
  }

  /** The penalty of one peer for one item. */
  function Delay<K>(a: Arrivals<K>, k: K, id: Id, maxDelay: int): (d: int)
    requires Timed(a) && k in a.first
    ensures maxDelay >= 0 ==> 0 <= d <= maxDelay
  {
    if id !in a.perPeer[k] || a.perPeer[k][id] - a.first[k] > maxDelay then maxDelay else a.perPeer[k][id] - a.first[k]
  }

  ghost function Total<K>(a: Arrivals<K>, id: Id, maxDelay: int, keys: set<K>): int
    requires Timed(a) && keys <= a.first.Keys
  {
    if keys == {} then 0
    else
      var k :| k in keys;
      Delay(a, k, id, maxDelay) + Total(a, id, maxDelay, keys - {k})
  }

  /** The order of adding up does not matter. */
  lemma {:induction false} TotalAny<K>(a: Arrivals<K>, id: Id, maxDelay: int, keys: set<K>, k: K)
    requires Timed(a) && keys <= a.first.Keys && k in keys
    ensures Total(a, id, maxDelay, keys) == Delay(a, k, id, maxDelay) + Total(a, id, maxDelay, keys - {k})
    decreases |keys|
  {
    hide Delay, Timed;
    var c :| c in keys &&
             Total(a, id, maxDelay, keys) == Delay(a, c, id, maxDelay) + Total(a, id, maxDelay, keys - {c});
    if c != k {
      TotalAny(a, id, maxDelay, keys - {c}, k);
      TotalAny(a, id, maxDelay, keys - {k}, c);
      assert keys - {c} - {k} == keys - {k} - {c};
    }
  }

  lemma {:induction false} TotalBound<K>(a: Arrivals<K>, id: Id, maxDelay: int, keys: set<K>)
    requires Timed(a) && keys <= a.first.Keys && maxDelay >= 0
    ensures 0 <= Total(a, id, maxDelay, keys) <= |keys| * maxDelay
    decreases |keys|
  {
    hide Delay, Timed;
    if keys == {} {
    } else {
      var k :| k in keys;
      TotalAny(a, id, maxDelay, keys, k);
      TotalBound(a, id, maxDelay, keys - {k});
      OneFewer(|keys|, maxDelay);
      assert |keys - {k}| == |keys| - 1;
    }
  }

  lemma OneFewer(n: int, m: int)
    ensures (n - 1) * m + m == n * m
  {
  }

  /** The items that arrived since the peer connected. */
  ghost function Since<K>(a: Arrivals<K>, birth: int): set<K> {
    set k | k in a.first && a.first[k] >= birth
  }

  method Latest<K(==)>(a: Arrivals<K>) returns (latest: int)
    ensures IsLatest(a, latest)
  {
    latest := 0;
    var left := a.first.Keys;
    while left != {}
      invariant left <= a.first.Keys && latest >= 0
      invariant forall k <- a.first | k !in left :: a.first[k] <= latest
      invariant latest == 0 || exists k :: k in a.first && a.first[k] == latest
    {
      var k :| k in left;
      left := left - {k};
      if a.first[k] > latest { latest := a.first[k]; }
    }
  }

  method AddUp<K(==)>(a: Arrivals<K>, id: Id, birth: int, maxDelay: int) returns (total: int, count: nat)
    requires Timed(a)
    ensures count == |Since(a, birth)| && total == Total(a, id, maxDelay, Since(a, birth))
  {
    hide Delay, Timed, Total, Since;
    total, count := 0, 0;
    NoneAddUp(a, id, maxDelay);
    SinceKnown(a, birth);
    var left := a.first.Keys;
    ghost var seen := Since(a, birth) - left;
    assert seen == {};
    while left != {}
      invariant left <= a.first.Keys && seen == Since(a, birth) - left
      invariant count == |seen| && total == Total(a, id, maxDelay, seen)
      decreases |left|
    {
      var k :| k in left;
      SeenNext(a, birth, left, k);
      if a.first[k] >= birth {
        TotalAny(a, id, maxDelay, seen + {k}, k);
        assert seen + {k} - {k} == seen;
        total, count := total + Delay(a, k, id, maxDelay), count + 1;
      }
      left := left - {k};
      seen := Since(a, birth) - left;
    }
    assert seen == Since(a, birth);
  }

  lemma SeenNext<K>(a: Arrivals<K>, birth: int, left: set<K>, k: K)
    requires k in left && left <= a.first.Keys
    ensures a.first[k] >= birth ==> Since(a, birth) - (left - {k}) == Since(a, birth) - left + {k}
    ensures a.first[k] < birth ==> Since(a, birth) - (left - {k}) == Since(a, birth) - left
  {
  }

  lemma NoneAddUp<K>(a: Arrivals<K>, id: Id, maxDelay: int)
    requires Timed(a)
    ensures Total(a, id, maxDelay, {}) == 0
  {
  }

  /** The average of a total that is at most n times the maximum. */
  lemma AverageBound(total: int, n: nat, m: int)
    requires n > 0 && 0 <= total <= n * m
    ensures 0.0 <= total as real / n as real <= m as real
  {
    assert (n * m) as real == n as real * m as real;
    assert total as real <= n as real * m as real;
  }

  /** A peer's average delay over the items since it connected; the maximum if there are none. */
  ghost function ScoreOf<K>(a: Arrivals<K>, id: Id, birth: int, maxDelay: int): real
    requires Timed(a)
  {
    SinceKnown(a, birth);
    if Since(a, birth) == {} then maxDelay as real
    else Total(a, id, maxDelay, Since(a, birth)) as real / |Since(a, birth)| as real
  }

  /** The peer connected too late to have sent anything. */
  ghost predicate TooLate<K>(a: Arrivals<K>, birth: int, tolerance: int) {
    Since(a, birth) == {} && birth > -tolerance && forall k <- a.first :: birth > a.first[k] - tolerance
  }

  ghost predicate IsLatest<K>(a: Arrivals<K>, latest: int) {
    latest >= 0 && (forall k <- a.first :: a.first[k] <= latest) &&
    (latest == 0 || exists k :: k in a.first && a.first[k] == latest)
  }

  lemma LatestDecides<K>(a: Arrivals<K>, latest: int, birth: int, tolerance: int)
    requires IsLatest(a, latest)
    ensures TooLate(a, birth, tolerance) <==> Since(a, birth) == {} && birth > latest - tolerance
  {
  }

  method Score<K(==)>(a: Arrivals<K>, id: Id, birth: int, maxDelay: int, latest: int, tolerance: int)
    returns (score: real, excused: bool)
    requires Timed(a) && IsLatest(a, latest)
    ensures score == ScoreOf(a, id, birth, maxDelay) && (maxDelay >= 0 ==> 0.0 <= score <= maxDelay as real)
    ensures excused <==> TooLate(a, birth, tolerance)
  {
    hide Timed, Total, Since, TooLate;
    LatestDecides(a, latest, birth, tolerance);
    var total, count := AddUp(a, id, birth, maxDelay);
    if count == 0 {
      score, excused := maxDelay as real, birth > latest - tolerance;
    } else {
      SinceKnown(a, birth);
      if maxDelay >= 0 {
        TotalBound(a, id, maxDelay, Since(a, birth));
        AverageBound(total, count, maxDelay);
      }
      score, excused := total as real / count as real, false;
    }
  }

  // ---- What a score says about the recorded times ----

  /** The peer sent the item when it first arrived. */
  ghost predicate FirstWith<K>(a: Arrivals<K>, k: K, id: Id)
    requires Timed(a) && k in a.first
  {
    id in a.perPeer[k] && a.perPeer[k][id] == a.first[k]
  }

  /** The other peer never sent the item, or not earlier. */
  ghost predicate NoLater<K>(a: Arrivals<K>, k: K, id: Id, other: Id)
    requires Timed(a) && k in a.first
  {
    other in a.perPeer[k] ==> id in a.perPeer[k] && a.perPeer[k][id] <= a.perPeer[k][other]
  }

  /** The peer sent the item in time, and the other never or later. */
  ghost predicate Ahead<K>(a: Arrivals<K>, k: K, id: Id, other: Id, maxDelay: int)
    requires Timed(a) && k in a.first
  {
    id in a.perPeer[k] && a.perPeer[k][id] - a.first[k] < maxDelay &&
    (other in a.perPeer[k] ==> a.perPeer[k][id] < a.perPeer[k][other])
  }

  lemma {:induction false} TotalOrdered<K>(a: Arrivals<K>, id: Id, other: Id, maxDelay: int, keys: set<K>)
    requires Timed(a) && keys <= a.first.Keys && maxDelay >= 0 && forall k <- keys :: NoLater(a, k, id, other)
    ensures Total(a, id, maxDelay, keys) <= Total(a, other, maxDelay, keys)
    ensures (exists k :: k in keys && Ahead(a, k, id, other, maxDelay)) ==>
              Total(a, id, maxDelay, keys) < Total(a, other, maxDelay, keys)
    decreases |keys|
  {
    if keys != {} {
      var k := OneAhead(a, id, other, maxDelay, keys);
      TotalAny(a, id, maxDelay, keys, k);
      TotalAny(a, other, maxDelay, keys, k);
      TotalOrdered(a, id, other, maxDelay, keys - {k});
      DelayOrdered(a, k, id, other, maxDelay);
    }
  }

  lemma OneAhead<K>(a: Arrivals<K>, id: Id, other: Id, maxDelay: int, keys: set<K>) returns (k: K)
    requires Timed(a) && keys <= a.first.Keys && keys != {}
    ensures k in keys
    ensures (exists j :: j in keys && Ahead(a, j, id, other, maxDelay)) ==> Ahead(a, k, id, other, maxDelay)
  {
    if j :| j in keys && Ahead(a, j, id, other, maxDelay) {
      k := j;
    } else {
      k :| k in keys;
    }
  }

  lemma DelayOrdered<K>(a: Arrivals<K>, k: K, id: Id, other: Id, maxDelay: int)
    requires Timed(a) && k in a.first && maxDelay >= 0
    ensures NoLater(a, k, id, other) ==> Delay(a, k, id, maxDelay) <= Delay(a, k, other, maxDelay)
    ensures Ahead(a, k, id, other, maxDelay) ==> Delay(a, k, id, maxDelay) < Delay(a, k, other, maxDelay)
    ensures FirstWith(a, k, id) ==> Delay(a, k, id, maxDelay) == 0
    ensures !FirstWith(a, k, id) && maxDelay > 0 ==> Delay(a, k, id, maxDelay) > 0
    ensures Delay(a, k, id, maxDelay) == maxDelay <==>
              id !in a.perPeer[k] || a.perPeer[k][id] - a.first[k] >= maxDelay
  {
  }

  lemma Averages(x: int, y: int, n: nat)
    requires n > 0
    ensures x <= y ==> x as real / n as real <= y as real / n as real
    ensures x < y ==> x as real / n as real < y as real / n as real
  {
  }

  /** Of two peers that connected at the same time, the one that sent every item since then no later
      than the other has no higher a score, and a lower one if it was ahead with any. */
  lemma FasterScoresLower<K>(a: Arrivals<K>, id: Id, other: Id, birth: int, maxDelay: int)
    requires Timed(a) && maxDelay >= 0
    requires forall k <- a.first | a.first[k] >= birth :: NoLater(a, k, id, other)
    ensures ScoreOf(a, id, birth, maxDelay) <= ScoreOf(a, other, birth, maxDelay)
    ensures (exists k :: k in a.first && a.first[k] >= birth && Ahead(a, k, id, other, maxDelay)) ==>
              ScoreOf(a, id, birth, maxDelay) < ScoreOf(a, other, birth, maxDelay)
  {
    hide Timed, Total, NoLater, Ahead;
    SinceKnown(a, birth);
    var keys := Since(a, birth);
    forall k <- a.first | a.first[k] >= birth ensures k in keys {}
    TotalOrdered(a, id, other, maxDelay, keys);
    if keys != {} { Averages(Total(a, id, maxDelay, keys), Total(a, other, maxDelay, keys), |keys|); }
  }

  lemma {:induction false} TotalEnds<K>(a: Arrivals<K>, id: Id, maxDelay: int, keys: set<K>)
    requires Timed(a) && keys <= a.first.Keys && maxDelay > 0
    ensures Total(a, id, maxDelay, keys) == 0 <==> forall k <- keys :: FirstWith(a, k, id)
    ensures Total(a, id, maxDelay, keys) == |keys| * maxDelay <==>
              forall k <- keys :: id !in a.perPeer[k] || a.perPeer[k][id] - a.first[k] >= maxDelay
    decreases |keys|
  {
    hide Delay, FirstWith;
    if keys != {} {
      var k :| k in keys;
      TotalAny(a, id, maxDelay, keys, k);
      TotalEnds(a, id, maxDelay, keys - {k});
      TotalBound(a, id, maxDelay, keys - {k});
      DelayOrdered(a, k, id, id, maxDelay);
      OneFewer(|keys|, maxDelay);
      assert |keys - {k}| == |keys| - 1 && forall j <- keys :: j == k || j in keys - {k};
    }
  }

  lemma AverageEnds(total: int, n: nat, m: int)
    requires n > 0
    ensures total as real / n as real == 0.0 <==> total == 0
    ensures total as real / n as real == m as real <==> total == n * m
  {
    assert (n * m) as real == n as real * m as real;
  }

  /** The score is zero exactly for a peer that sent every item since it connected at its first arrival,
      if there was any; and it is the maximum exactly for one that sent none of them in time. */
  lemma ScoreEnds<K>(a: Arrivals<K>, id: Id, birth: int, maxDelay: int)
    requires Timed(a) && maxDelay > 0
    ensures ScoreOf(a, id, birth, maxDelay) == 0.0 <==>
              (exists k :: k in a.first && a.first[k] >= birth) &&
              (forall k <- a.first | a.first[k] >= birth :: FirstWith(a, k, id))
    ensures ScoreOf(a, id, birth, maxDelay) == maxDelay as real <==>
              forall k <- a.first | a.first[k] >= birth ::
                id !in a.perPeer[k] || a.perPeer[k][id] - a.first[k] >= maxDelay
  {
    hide Total, FirstWith;
    SinceKnown(a, birth);
    var keys := Since(a, birth);
    TotalEnds(a, id, maxDelay, keys);
    if keys != {} { AverageEnds(Total(a, id, maxDelay, keys), |keys|, maxDelay); }
    SinceNone(a, birth);
  }

  lemma SinceNone<K>(a: Arrivals<K>, birth: int)
    ensures Since(a, birth) == {} <==> forall k <- a.first :: a.first[k] < birth
  {
    forall k <- a.first | a.first[k] >= birth ensures k in Since(a, birth) {}
  }

  /** Nothing arrived since the peer connected, and what had arrived by then came less than the
      tolerance after that. */
  lemma LateIs<K>(a: Arrivals<K>, birth: int, tolerance: int)
    ensures TooLate(a, birth, tolerance) <==>
              (forall k <- a.first :: a.first[k] < birth && a.first[k] - birth < tolerance) && -birth < tolerance
  {
    hide Since;
    SinceNone(a, birth);
  }

  lemma SinceKnown<K>(a: Arrivals<K>, birth: int)
    ensures Since(a, birth) <= a.first.Keys
  {
  }

  /** The order of eviction: higher delays first, and no-drop peers after all others. */
  predicate Worse(noDrop: set<Id>, x: IdScore, y: IdScore) {
    if x.id in noDrop && y.id !in noDrop then false
    else if y.id in noDrop && x.id !in noDrop then true
    else x.score > y.score
  }

  lemma BeforeTail(s: seq<IdScore>, k: nat, i: nat)
    requires k <= |s| && i < |s| && s[i].id !in Ids(s[k..])
    ensures i < k
  {
    assert forall j :: k <= j < |s| ==> s[k..][j - k] == s[j];
  }

  ghost predicate WorstFirst(s: seq<IdScore>, noDrop: set<Id>) {
    NoDropLast(s, noDrop) &&
    forall i, j :: 0 <= i < j < |s| && (s[i].id in noDrop <==> s[j].id in noDrop) ==> s[i].score >= s[j].score
  }

  method SortScores(s: seq<IdScore>, noDrop: set<Id>) returns (t: seq<IdScore>)
    requires Distinct(s)
    ensures Distinct(t) && Ids(t) == Ids(s) && multiset(t) == multiset(s) && WorstFirst(t, noDrop)
  {
    var less := (x: IdScore, y: IdScore) => Worse(noDrop, x, y);
    t := Sort(s, less);
    Reordered(s, t);
  }

  lemma Reordered(s: seq<IdScore>, t: seq<IdScore>)
    requires Distinct(s) && multiset(s) == multiset(t)
    ensures Distinct(t) && Ids(t) == Ids(s)
  {
    NoRepeatsPermuted(s, t);
    assert Ids(t) == Ids(s);
    DistinctCount(s);
    CountDistinct(t);
  }

  /** As many ids as entries: no id twice. */
  lemma {:induction false} CountDistinct(s: seq<IdScore>)
    ensures |Ids(s)| <= |s|
    ensures |Ids(s)| == |s| ==> Distinct(s)
  {
    if s != [] {
      var init, last := s[..|s| - 1], s[|s| - 1];
      CountDistinct(init);
      assert s == init + [last];
      assert Ids(s) == Ids(init) + {last.id};
      if last.id in Ids(init) { assert Ids(s) == Ids(init); }
    }
  }

  /** Recording a list of items, one after the other. */
  ghost function RecordAll<K>(a: Arrivals<K>, ks: seq<K>, id: Id, time: int): (a': Arrivals<K>)
    requires Timed(a)
    ensures Timed(a')
  {
    if ks == [] then a else Record(RecordAll(a, ks[..|ks| - 1], id, time), ks[|ks| - 1], id, time)
  }

  lemma RecordNone<K>(a: Arrivals<K>, id: Id, time: int)
    requires Timed(a)
    ensures RecordAll(a, [], id, time) == a
  {
  }

  lemma RecordNext<K>(a: Arrivals<K>, ks: seq<K>, k: K, id: Id, time: int)
    requires Timed(a)
    ensures RecordAll(a, ks + [k], id, time) == Record(RecordAll(a, ks, id, time), k, id, time)
  {
    hide Timed, Record;
    assert (ks + [k])[..|ks|] == ks;
  }

  /** What it comes to for one item: listed or not, however often. */
  lemma {:induction false} RecordedOnce<K>(a: Arrivals<K>, ks: seq<K>, id: Id, time: int, k: K)
    requires Timed(a)
    ensures var a' := RecordAll(a, ks, id, time);
            (k in a'.first <==> k in a.first || k in ks) &&
            (k in ks ==> id in a'.perPeer[k] && a'.perPeer[k][id] == time) &&
            (k in ks ==> a'.first[k] == if k in a.first && a.first[k] <= time then a.first[k] else time) &&
            (k !in ks && k in a.first ==> a'.first[k] == a.first[k] && a'.perPeer[k] == a.perPeer[k])
    decreases |ks|
  {
    hide Timed;
    if ks != [] {
      var init := ks[..|ks| - 1];
      RecordedOnce(a, init, id, time, k);
      assert ks == init + [ks[|ks| - 1]];
    }
  }

  /** The announced blocks that are not too far behind the head. */
  ghost function NearHead(hashes: seq<Hash>, numbers: seq<nat>, head: nat, n: nat): seq<Block>
    requires n <= |hashes| && n <= |numbers|
  {
    if n == 0 then []
    else
      var near := NearHead(hashes, numbers, head, n - 1);
      if numbers[n - 1] - head >= -MAX_BLOCK_DIST then near + [Block(hashes[n - 1], numbers[n - 1])] else near
  }

  lemma {:induction false} NearHeadExactly(hashes: seq<Hash>, numbers: seq<nat>, head: nat, n: nat, b: Block)
    requires n <= |hashes| && n <= |numbers|
    ensures b in NearHead(hashes, numbers, head, n) <==>
              exists i :: 0 <= i < n && b == Block(hashes[i], numbers[i]) && head <= numbers[i] + 32
  {
    if n > 0 { NearHeadExactly(hashes, numbers, head, n - 1, b); }
  }

  /** The transactions that were not seen in earlier rounds. */
  ghost function Fresh(hashes: seq<Hash>, stale: map<Hash, int>): seq<Hash> {
    if hashes == [] then []
    else
      var first := Fresh(hashes[..|hashes| - 1], stale);
      if hashes[|hashes| - 1] !in stale then first + [hashes[|hashes| - 1]] else first
  }

  lemma {:induction false} FreshExactly(hashes: seq<Hash>, stale: map<Hash, int>, h: Hash)
    ensures h in Fresh(hashes, stale) <==> h in hashes && h !in stale
    decreases |hashes|
  {
    if hashes != [] {
      FreshExactly(hashes[..|hashes| - 1], stale, h);
      assert hashes == hashes[..|hashes| - 1] + [hashes[|hashes| - 1]];
    }
  }

  const MAX_BLOCK_DIST := 32
  const TRANSACTION_ARRIVAL_REPLACE := 30000

  datatype Entry = Entry(hash: Hash, time: int)

  /** The entries list the map, every key once. */
  ghost predicate Lists(es: seq<Entry>, m: map<Hash, int>) {
    (forall i :: 0 <= i < |es| ==> es[i].hash in m && m[es[i].hash] == es[i].time) &&
    (forall h <- m :: Entry(h, m[h]) in es) && NoRepeats(es) && |es| == |m|
  }

  method Entries(m: map<Hash, int>) returns (es: seq<Entry>)
    ensures Lists(es, m)
  {
    es := [];
    var left := m.Keys;
    while left != {}
      invariant left <= m.Keys && |es| + |left| == |m.Keys|
      invariant forall i :: 0 <= i < |es| ==> es[i].hash in m && m[es[i].hash] == es[i].time
      invariant forall h <- m | h !in left :: Entry(h, m[h]) in es
      invariant NoRepeats(es) && forall i :: 0 <= i < |es| ==> es[i].hash !in left
      decreases |left|
    {
      var h := AnyOf(left);
      es := es + [Entry(h, m[h])];
      left := left - {h};
    }
    assert |m| == |m.Keys|;
  }

  predicate Earlier(x: Entry, y: Entry) {
    x.time < y.time
  }

  ghost predicate Ascending(es: seq<Entry>) {
    forall i, j :: 0 <= i < j < |es| ==> es[i].time <= es[j].time
  }

  method SortEntries(es: seq<Entry>, ghost m: map<Hash, int>) returns (t: seq<Entry>)
    requires Lists(es, m)
    ensures Lists(t, m) && Ascending(t)
  {
    t := Sort(es, Earlier);
    NoRepeatsPermuted(es, t);
    forall i | 0 <= i < |t| ensures t[i].hash in m && m[t[i].hash] == t[i].time {
      assert t[i] in es;
    }
  }

  /** The map without its n earliest entries. */
  ghost predicate Pruned(m: map<Hash, int>, m': map<Hash, int>, n: nat) {
    m'.Keys <= m.Keys && (forall h <- m' :: m'[h] == m[h]) && |m'| == |m| - n &&
    forall g, h | g in m && g !in m' && h in m' :: m[g] <= m[h]
  }

  lemma NonePruned(m: map<Hash, int>)
    ensures Pruned(m, m, 0)
  {
  }

  method Prune(m: map<Hash, int>, n: nat) returns (m': map<Hash, int>)
    requires n <= |m|
    ensures Pruned(m, m', n)
  {
    hide Pruned, Lists, Ascending;
    var es := Entries(m);
    es := SortEntries(es, m);
    ListsCount(es, m);
    m' := m;
    NoneGone(es, m);
    for i := 0 to n
      invariant Gone(es, m, m', i)
    {
      GoneNext(es, m, m', i);
      m' := m' - {es[i].hash};
    }
    GonePruned(es, m, m', n);
  }

  lemma ListsCount(es: seq<Entry>, m: map<Hash, int>)
    requires Lists(es, m)
    ensures |es| == |m|
  {
  }

  /** The first i entries are gone and no others. */
  ghost predicate Gone(es: seq<Entry>, m: map<Hash, int>, m': map<Hash, int>, i: nat) {
    i <= |es| && m'.Keys <= m.Keys && (forall h <- m' :: m'[h] == m[h]) && |m'.Keys| == |m| - i &&
    (forall j :: 0 <= j < |es| ==> (es[j].hash in m' <==> j >= i))
  }

  lemma NoneGone(es: seq<Entry>, m: map<Hash, int>)
    requires Lists(es, m)
    ensures Gone(es, m, m, 0)
  {
    assert |m| == |m.Keys|;
  }

  lemma GoneNext(es: seq<Entry>, m: map<Hash, int>, m': map<Hash, int>, i: nat)
    requires Lists(es, m) && Gone(es, m, m', i) && i < |es|
    ensures Gone(es, m, m' - {es[i].hash}, i + 1)
  {
    forall j | 0 <= j < |es| && j != i ensures es[j].hash != es[i].hash {
      assert es[j] != es[i];
    }
    assert (m' - {es[i].hash}).Keys == m'.Keys - {es[i].hash};
  }

  lemma GonePruned(es: seq<Entry>, m: map<Hash, int>, m': map<Hash, int>, n: nat)
    requires Lists(es, m) && Ascending(es) && Gone(es, m, m', n)
    ensures Pruned(m, m', n)
  {
    assert |m'| == |m'.Keys|;
    forall g, h | g in m && g !in m' && h in m' ensures m[g] <= m[h] {
      var i :| 0 <= i < |es| && es[i] == Entry(g, m[g]);
      var j :| 0 <= j < |es| && es[j] == Entry(h, m[h]);
    }
  }

  class Relay {
    const blockPeers: nat
    const txPeers: nat
    const maxDelay: nat
    const tolerance: int
    const maxTransactions: nat
    const active: bool

    var blocks: Arrivals<Block>
    var txs: Arrivals<Hash>
    /** Transactions of earlier rounds; they are not recorded again. */
    var txOld: map<Hash, int>

    ghost predicate Valid()
      reads this
    {
      Timed(blocks) && Timed(txs) && txs.first.Keys !! txOld.Keys
    }

    method RecordBlocks(id: Id, hashes: seq<Hash>, numbers: seq<nat>, head: nat, time: int)
      requires Valid()
      modifies `blocks
      ensures Valid()
      ensures var n := if |hashes| <= |numbers| then |hashes| else |numbers|;
              blocks == RecordAll(old(blocks), NearHead(hashes, numbers, head, n), id, time)
    {
      hide Timed, Record, RecordAll;
      RecordNone(blocks, id, time);
      var length := if |hashes| <= |numbers| then |hashes| else |numbers|;
      for i := 0 to length
        invariant Valid() && blocks == RecordAll(old(blocks), NearHead(hashes, numbers, head, i), id, time)
      {
        if numbers[i] - head >= -MAX_BLOCK_DIST {
          RecordNext(old(blocks), NearHead(hashes, numbers, head, i), Block(hashes[i], numbers[i]), id, time);
          blocks := Record(blocks, Block(hashes[i], numbers[i]), id, time);
        }
      }
    }

    method RecordTransactions(id: Id, hashes: seq<Hash>, time: int)
      requires Valid()
      modifies `txs
      ensures Valid() && txs == RecordAll(old(txs), Fresh(hashes, txOld), id, time)
    {
      hide Timed, Record, RecordAll;
      RecordNone(txs, id, time);
      for i := 0 to |hashes|
        invariant Valid() && txs == RecordAll(old(txs), Fresh(hashes[..i], txOld), id, time)
      {
        assert hashes[..i + 1][..i] == hashes[..i];
        if hashes[i] !in txOld {
          RecordNext(old(txs), Fresh(hashes[..i], txOld), hashes[i], id, time);
          txs := Record(txs, hashes[i], id, time);
        }
      }
      assert hashes[..|hashes|] == hashes;
    }

    /** Every entry of an order is a peer with its score. */
    ghost predicate Scores<K>(a: Arrivals<K>, peers: map<Id, int>, s: seq<IdScore>)
      requires Timed(a)
    {
      Distinct(s) && forall x <- s :: x.id in peers && x.score == ScoreOf(a, x.id, peers[x.id], maxDelay)
    }

    ghost function Excused(peers: map<Id, int>, among: set<Id>): set<Id>
      reads this
    {
      set id | id in among && id in peers &&
               (TooLate(blocks, peers[id], tolerance) || TooLate(txs, peers[id], tolerance))
    }

    lemma NobodyExcused(peers: map<Id, int>)
      ensures Excused(peers, {}) == {}
    {
    }

    lemma ExcusedNext(peers: map<Id, int>, among: set<Id>, id: Id)
      requires id in peers
      ensures var late := TooLate(blocks, peers[id], tolerance) || TooLate(txs, peers[id], tolerance);
              id !in among ==>
                Excused(peers, among + {id}) == if late then Excused(peers, among) + {id} else Excused(peers, among)
    {
      hide TooLate;
    }

    method ScorePeer(id: Id, birth: int, latestBlock: int, latestTx: int) returns (block: real, tx: real, late: bool)
      requires Valid() && IsLatest(blocks, latestBlock) && IsLatest(txs, latestTx)
      ensures block == ScoreOf(blocks, id, birth, maxDelay) && tx == ScoreOf(txs, id, birth, maxDelay)
      ensures late <==> TooLate(blocks, birth, tolerance) || TooLate(txs, birth, tolerance)
    {
      hide ScoreOf, TooLate, IsLatest, Timed;
      var lateBlock, lateTx;
      block, lateBlock := Score(blocks, id, birth, maxDelay, latestBlock, tolerance);
      tx, lateTx := Score(txs, id, birth, maxDelay, latestTx, tolerance);
      late := lateBlock || lateTx;
    }

    /** Both orders hold every peer once, worst first, with its score by blocks and by transactions. */
    method GetScores(peers: map<Id, int>, noDrop: set<Id>)
      returns (block: seq<IdScore>, tx: seq<IdScore>, excused: set<Id>)
      requires Valid()
      ensures Scores(blocks, peers, block) && Scores(txs, peers, tx) && Ids(block) == peers.Keys == Ids(tx)
      ensures WorstFirst(block, noDrop) && WorstFirst(tx, noDrop)
      ensures excused == Excused(peers, peers.Keys)
    {
      hide WorstFirst, Ids, ScoreOf, TooLate, IsLatest, Excused;
      NobodyExcused(peers);
      var latestBlock := Latest(blocks);
      var latestTx := Latest(txs);
      block, tx, excused := [], [], {};
      NobodyYet();
      var left := peers.Keys;
      ghost var done: set<Id> := {};
      while left != {}
        invariant left !! done && left + done == peers.Keys && excused == Excused(peers, done)
        invariant Ids(block) == done == Ids(tx)
        invariant Scores(blocks, peers, block) && Scores(txs, peers, tx)
        decreases |left|
      {
        var id := AnyOf(left);
        var blockScore, txScore, late := ScorePeer(id, peers[id], latestBlock, latestTx);
        ExcusedNext(peers, done, id);
        if late { excused := excused + {id}; }
        block := Add(block, IdScore(id, blockScore));
        tx := Add(tx, IdScore(id, txScore));
        left := left - {id};
        done := done + {id};
      }
      ghost var b0, t0 := block, tx;
      block := SortScores(block, noDrop);
      tx := SortScores(tx, noDrop);
      NoRepeatsPermuted(b0, block);
      NoRepeatsPermuted(t0, tx);
    }

    /** The old transactions that are kept: all of them, or without the 30000 earliest if they are too
        many. */
    ghost predicate Renewed(all: map<Hash, int>, kept: map<Hash, int>) {
      Pruned(all, kept, if |all| <= maxTransactions then 0 else if |all| < 30000 then |all| else 30000)
    }

    /** Begin a new round: the recorded transactions become old ones, and when there are too many of
        those the earliest are deleted. */
    method ResetRecords()
      requires Valid()
      modifies `blocks, `txs, `txOld
      ensures Valid() && blocks.first == map[] && txs.first == map[]
      ensures Renewed(old(txOld) + old(txs.first), txOld)
    {
      hide Pruned, Timed;
      txOld := txOld + txs.first;
      NonePruned(txOld);
      if |txOld| > maxTransactions {
        txOld := Prune(txOld, if |txOld| < TRANSACTION_ARRIVAL_REPLACE then |txOld| else TRANSACTION_ARRIVAL_REPLACE);
      }
      txs, blocks := NoArrivals(), NoArrivals();
    }

    /** A peer with its score. */
    ghost function Entry<K>(a: Arrivals<K>, peers: map<Id, int>, id: Id): IdScore
      requires Timed(a) && id in peers
    {
      IdScore(id, ScoreOf(a, id, peers[id], maxDelay))
    }

    /** At least n other peers are no worse than this one by these arrivals. */
    ghost predicate Outranked<K>(a: Arrivals<K>, peers: map<Id, int>, noDrop: set<Id>, n: nat, id: Id)
      requires Timed(a) && id in peers
    {
      exists better: set<Id> :: |better| == n && AllNoWorse(a, peers, noDrop, better, id)
    }

    ghost predicate AllNoWorse<K>(a: Arrivals<K>, peers: map<Id, int>, noDrop: set<Id>, better: set<Id>, id: Id)
      requires Timed(a) && id in peers
    {
      better <= peers.Keys - {id} && forall p <- better :: !Worse(noDrop, Entry(a, peers, p), Entry(a, peers, id))
    }

    /** Whoever is not among the last n of an order has n others behind that are no worse. */
    lemma NotReserved<K>(a: Arrivals<K>, peers: map<Id, int>, noDrop: set<Id>, s: seq<IdScore>, n: nat, id: Id)
      requires Timed(a) && Scores(a, peers, s) && Ids(s) == peers.Keys && WorstFirst(s, noDrop) && n <= |s|
      requires id in Ids(s) && id !in Ids(s[From(s, n)..])
      ensures id in peers && Outranked(a, peers, noDrop, n, id)
    {
      hide Timed, ScoreOf;
      var tail := s[From(s, n)..];
      var better := Ids(tail);
      BestCount(s, n);
      var i :| 0 <= i < |s| && s[i].id == id;
      BeforeTail(s, From(s, n), i);
      forall p <- better ensures p in peers && p != id && !Worse(noDrop, Entry(a, peers, p), Entry(a, peers, id)) {
        var j :| 0 <= j < |tail| && tail[j].id == p;
        assert tail[j] == s[From(s, n) + j];
      }
      assert AllNoWorse(a, peers, noDrop, better, id);
    }

    lemma SelectedOutranked(peers: map<Id, int>, noDrop: set<Id>, block: seq<IdScore>, tx: seq<IdScore>,
                            selected: set<Id>)
      requires Timed(blocks) && Timed(txs) && Scores(blocks, peers, block) && Scores(txs, peers, tx)
      requires Ids(block) == peers.Keys == Ids(tx) && WorstFirst(block, noDrop) && WorstFirst(tx, noDrop)
      requires selected <= Ids(tx) - Reserve(block, tx, blockPeers, txPeers)
      requires selected != {} ==> |tx| > blockPeers + txPeers
      ensures forall id <- selected ::
                id in peers && Outranked(blocks, peers, noDrop, blockPeers, id) &&
                Outranked(txs, peers, noDrop, txPeers, id)
    {
      hide Timed, ScoreOf, Outranked, WorstFirst, Ids, From, Distinct;
      DistinctCount(block);
      DistinctCount(tx);
      forall id <- selected
        ensures id in peers && Outranked(blocks, peers, noDrop, blockPeers, id)
        ensures Outranked(txs, peers, noDrop, txPeers, id)
      {
        NotReserved(blocks, peers, noDrop, block, blockPeers, id);
        NotReserved(txs, peers, noDrop, tx, txPeers, id);
      }
    }

    /** The peer was the first with every item since it connected, and there was one. */
    ghost predicate Perfect<K>(a: Arrivals<K>, peers: map<Id, int>, id: Id)
      requires Timed(a) && id in peers
    {
      (exists k :: k in a.first && a.first[k] >= peers[id]) &&
      (forall k <- a.first | a.first[k] >= peers[id] :: FirstWith(a, k, id))
    }

    /** Those first with everything, and those not to be dropped. */
    ghost function Untouchable<K>(a: Arrivals<K>, peers: map<Id, int>, noDrop: set<Id>): set<Id>
      requires Timed(a)
    {
      set id | id in peers && (id in noDrop || Perfect(a, peers, id))
    }

    /** If they fit into the slots of one order, none of them is outranked there. */
    lemma NotOutranked<K>(a: Arrivals<K>, peers: map<Id, int>, noDrop: set<Id>, n: nat, id: Id)
      requires Timed(a) && id in Untouchable(a, peers, noDrop) && maxDelay > 0
      requires |Untouchable(a, peers, noDrop)| <= n
      ensures !Outranked(a, peers, noDrop, n, id)
    {
      hide Timed, ScoreOf, Perfect;
      var all := Untouchable(a, peers, noDrop);
      forall better | AllNoWorse(a, peers, noDrop, better, id) ensures |better| < n {
        forall p <- better ensures p in all {
          ScoreEnds(a, p, peers[p], maxDelay);
          ScoreEnds(a, id, peers[id], maxDelay);
          ScoreAtLeast(a, p, peers[p]);
          assert !Worse(noDrop, Entry(a, peers, p), Entry(a, peers, id));
          PerfectIs(a, peers, p);
          PerfectIs(a, peers, id);
        }
        SubsetCount(better, all - {id});
      }
    }

    lemma PerfectIs<K>(a: Arrivals<K>, peers: map<Id, int>, id: Id)
      requires Timed(a) && id in peers && maxDelay > 0
      ensures Perfect(a, peers, id) <==> ScoreOf(a, id, peers[id], maxDelay) == 0.0
    {
      hide ScoreOf, Timed;
      ScoreEnds(a, id, peers[id], maxDelay);
    }

    lemma ScoreAtLeast<K>(a: Arrivals<K>, id: Id, birth: int)
      requires Timed(a)
      ensures ScoreOf(a, id, birth, maxDelay) >= 0.0
    {
      hide Timed, Total, Since;
      SinceKnown(a, birth);
      TotalBound(a, id, maxDelay, Since(a, birth));
      if Since(a, birth) != {} { AverageBound(Total(a, id, maxDelay, Since(a, birth)), |Since(a, birth)|, maxDelay); }
    }

    lemma UntouchableKept(peers: map<Id, int>, noDrop: set<Id>, selected: set<Id>)
      requires Valid() && selected <= peers.Keys && maxDelay > 0
      requires forall id <- selected ::
                 Outranked(blocks, peers, noDrop, blockPeers, id) && Outranked(txs, peers, noDrop, txPeers, id)
      ensures |Untouchable(blocks, peers, noDrop)| <= blockPeers ==> selected !! Untouchable(blocks, peers, noDrop)
      ensures |Untouchable(txs, peers, noDrop)| <= txPeers ==> selected !! Untouchable(txs, peers, noDrop)
    {
      hide Timed, Outranked, Untouchable;
      forall id <- selected
        ensures |Untouchable(blocks, peers, noDrop)| <= blockPeers ==> id !in Untouchable(blocks, peers, noDrop)
        ensures |Untouchable(txs, peers, noDrop)| <= txPeers ==> id !in Untouchable(txs, peers, noDrop)
      {
        if |Untouchable(blocks, peers, noDrop)| <= blockPeers && id in Untouchable(blocks, peers, noDrop) {
          NotOutranked(blocks, peers, noDrop, blockPeers, id);
        }
        if |Untouchable(txs, peers, noDrop)| <= txPeers && id in Untouchable(txs, peers, noDrop) {
          NotOutranked(txs, peers, noDrop, txPeers, id);
        }
      }
    }

    /** One round: nothing happens unless blocks and transactions were recorded; else the selected
        peers are dropped, but for those excused, and the records are reset. */
    method DisconnectByScore(peers: map<Id, int>, noDrop: set<Id>) returns (dropped: set<Id>, ghost selected: set<Id>)
      requires Valid()
      modifies `blocks, `txs, `txOld
      ensures Valid() && dropped <= selected <= peers.Keys
      ensures old(blocks.first == map[] || txs.first == map[]) ==> selected == {} && unchanged(this)
      ensures old(blocks.first != map[] && txs.first != map[]) ==>
                |selected| == (if |peers| > blockPeers + txPeers then |peers| - blockPeers - txPeers else 0) &&
                dropped == (if active then selected - old(Excused(peers, peers.Keys)) else {}) &&
                blocks.first == map[] && txs.first == map[] && Renewed(old(txOld) + old(txs.first), txOld)
      ensures forall id <- selected ::
                id in peers && Outranked(old(blocks), peers, noDrop, blockPeers, id) &&
                Outranked(old(txs), peers, noDrop, txPeers, id)
      ensures |peers.Keys * noDrop| <= (if blockPeers > txPeers then blockPeers else txPeers) ==> selected !! noDrop
      ensures maxDelay > 0 && |Untouchable(old(blocks), peers, noDrop)| <= blockPeers ==>
                selected !! Untouchable(old(blocks), peers, noDrop)
      ensures maxDelay > 0 && |Untouchable(old(txs), peers, noDrop)| <= txPeers ==>
                selected !! Untouchable(old(txs), peers, noDrop)
    {
      hide Untouchable, Renewed, Timed, Excused, ScoreOf, Outranked, WorstFirst, NoDropLast, Distinct, Ids, From,
           Reserve, NoRepeats, Members;
      dropped, selected := {}, {};
      if |blocks.first| == 0 || |txs.first| == 0 { return; }
      var block, tx, excused := GetScores(peers, noDrop);
      var drop := Select(block, tx, blockPeers, txPeers);
      Chosen(block, tx, blockPeers, txPeers, peers.Keys, noDrop, drop);
      selected := Members(drop);
      SelectedOutranked(peers, noDrop, block, tx, selected);
      if maxDelay > 0 { UntouchableKept(peers, noDrop, selected); }
      if active {
        dropped := Without(drop, excused);
      }
      ResetRecords();
    }
  }

  lemma Chosen(block: seq<IdScore>, tx: seq<IdScore>, b: nat, t: nat, peers: set<Id>, noDrop: set<Id>, drop: seq<Id>)
    requires Distinct(block) && Distinct(tx) && Ids(block) == peers == Ids(tx)
    requires WorstFirst(block, noDrop) && WorstFirst(tx, noDrop)
    requires NoRepeats(drop) && Members(drop) <= Ids(tx) - Reserve(block, tx, b, t)
    ensures |tx| == |peers| && |Members(drop)| == |drop| && Members(drop) <= peers
    ensures |peers * noDrop| <= (if b > t then b else t) ==> Members(drop) !! noDrop
  {
    hide Distinct, Ids, Reserve, NoRepeats, Members, NoDropLast;
    DistinctCount(tx);
    MembersCount(drop);
    if |peers * noDrop| <= if b > t then b else t {
      forall id | id in noDrop ensures id !in Members(drop) {
        NoDropKept(block, tx, b, t, noDrop, drop, id);
      }
    }
  }

  method Without(ids: seq<Id>, excused: set<Id>) returns (rest: set<Id>)
    ensures rest == Members(ids) - excused
  {
    rest := {};
    for i := 0 to |ids|
      invariant rest == Members(ids[..i]) - excused
    {
      assert ids[..i + 1] == ids[..i] + [ids[i]];
      if ids[i] !in excused { rest := rest + {ids[i]}; }
    }
    assert ids[..|ids|] == ids;
  }

  method AnyOf<T(==)>(s: set<T>) returns (x: T)
    requires s != {}
    ensures x in s
  {
    x :| x in s;
  }

  method Add(s: seq<IdScore>, x: IdScore) returns (t: seq<IdScore>)
    requires Distinct(s) && x.id !in Ids(s)
    ensures t == s + [x] && Distinct(t) && Ids(t) == Ids(s) + {x.id}
  {
    t := s + [x];
  }

  lemma NobodyYet()
    ensures Distinct([]) && Ids([]) == {}
  {
  }
}

/** The exponentially decaying reservoir of metrics/sample.go: a min-heap on an array of fixed
    capacity.  Keys are positive reals. */
module ExpDecay {
  import opened Options
  import opened Sorting

  datatype Sample = Sample(k: real, v: int)

  /** The parent of a heap position; that of the root is the root, as division rounds towards zero. */
  function Parent(j: nat): (i: nat)
    ensures i <= j && (j > 0 ==> i < j)
  {
    if j == 0 then 0 else (j - 1) / 2
  }

  /** No position in the given range that is a child has a lesser key than its parent, but for one. */
  ghost predicate OrderedBut(s: seq<Sample>, except: int) {
    forall c :: 0 < c < |s| && c != except ==> s[Parent(c)].k <= s[c].k
  }

  ghost predicate IsHeap(s: seq<Sample>) {
    OrderedBut(s, 0)
  }

  /** One sample may be less than its parent, but not the ones below it. */
  ghost predicate RisingAt(s: seq<Sample>, j: nat) {
    OrderedBut(s, j) && forall c :: 0 < c < |s| && Parent(c) == j && j > 0 ==> s[Parent(j)].k <= s[c].k
  }

  lemma Risen(s: seq<Sample>, j: nat)
    requires RisingAt(s, j) && 0 < j < |s| && s[j].k < s[Parent(j)].k
    ensures RisingAt(Swapped(s, Parent(j), j), Parent(j))
  {
    var i, t := Parent(j), Swapped(s, Parent(j), j);
    forall c | 0 < c < |t| && c != i ensures t[Parent(c)].k <= t[c].k {
      if c != j { assert s[Parent(c)].k <= s[c].k; }
    }
    forall c | 0 < c < |t| && Parent(c) == i && i > 0 ensures t[Parent(i)].k <= t[c].k {
      assert s[Parent(i)].k <= s[i].k;
      if c != j { assert s[Parent(c)].k <= s[c].k; }
    }
  }

  lemma Settled(s: seq<Sample>, j: nat)
    requires RisingAt(s, j) && j < |s| && s[j].k >= s[Parent(j)].k
    ensures IsHeap(s)
  {
  }

  /** The children of one position may be less than it, but not less than its parent. */
  ghost predicate SinkingAt(s: seq<Sample>, i: nat) {
    (forall c :: 0 < c < |s| && Parent(c) != i ==> s[Parent(c)].k <= s[c].k) &&
    (forall c :: 0 < c < |s| && Parent(c) == i && i > 0 ==> s[Parent(i)].k <= s[c].k)
  }

  lemma Children(i: nat, c: nat)
    requires c > 0
    ensures Parent(c) == i <==> c == 2 * i + 1 || c == 2 * i + 2
  {
  }

  lemma Sunk(s: seq<Sample>, i: nat, j: nat)
    requires SinkingAt(s, i) && 0 < j < |s| && Parent(j) == i && s[j].k < s[i].k
    requires forall c :: 0 < c < |s| && Parent(c) == i ==> s[j].k <= s[c].k
    ensures SinkingAt(Swapped(s, i, j), j)
  {
    var t := Swapped(s, i, j);
    forall c | 0 < c < |t| && Parent(c) != j ensures t[Parent(c)].k <= t[c].k {
      if Parent(c) != i { assert s[Parent(c)].k <= s[c].k; }
    }
    forall c | 0 < c < |t| && Parent(c) == j ensures t[Parent(j)].k <= t[c].k {
      assert s[Parent(c)].k <= s[c].k;
    }
  }

  lemma Rested(s: seq<Sample>, i: nat)
    requires SinkingAt(s, i) && i < |s|
    requires forall c :: 0 < c < |s| && Parent(c) == i ==> s[i].k <= s[c].k
    ensures IsHeap(s)
  {
  }

  /** The root of a heap has the least key. */
  lemma {:induction false} RootLeast(s: seq<Sample>, j: nat)
    requires IsHeap(s) && j < |s|
    ensures s[0].k <= s[j].k
  {
    if j > 0 { RootLeast(s, Parent(j)); }
  }

  class Heap {
    const s: array<Sample>
    var n: nat

    ghost predicate Valid()
      reads this, s
    {
      n <= s.Length && IsHeap(s[..n])
    }

    constructor (reservoirSize: nat)
      ensures Valid() && n == 0 && s.Length == reservoirSize && fresh(s)
    {
      s := new Sample[reservoirSize](_ => Sample(0.0, 0));
      n := 0;
    }

    method Swap(i: nat, j: nat, m: nat)
      requires i < m && j < m <= s.Length
      modifies s
      ensures s[..m] == Swapped(old(s[..m]), i, j) && s[m..] == old(s[m..])
    {
      s[i], s[j] := s[j], s[i];
    }

    method Up(j0: nat)
      requires j0 < n <= s.Length && RisingAt(s[..n], j0)
      modifies s
      ensures IsHeap(s[..n]) && multiset(s[..n]) == old(multiset(s[..n])) && s[n..] == old(s[n..])
    {
      hide RisingAt, IsHeap;
      var j: nat := j0;
      while true
        invariant 0 <= j < n && RisingAt(s[..n], j)
        invariant multiset(s[..n]) == old(multiset(s[..n])) && s[n..] == old(s[n..])
        decreases j
      {
        var i := Parent(j);
        if i == j || !(s[j].k < s[i].k) { break; }
        Risen(s[..n], j);
        Swap(i, j, n);
        j := i;
      }
      Settled(s[..n], j);
    }

    /** Let the root sink in the first m places. */
    method Down(m: nat)
      requires m <= s.Length && SinkingAt(s[..m], 0)
      modifies s
      ensures IsHeap(s[..m]) && multiset(s[..m]) == old(multiset(s[..m])) && s[m..] == old(s[m..])
    {
      hide SinkingAt, IsHeap;
      if m == 0 { NoHeap(s[..0]); return; }
      var i: nat := 0;
      while true
        invariant 0 <= i < m && SinkingAt(s[..m], i)
        invariant multiset(s[..m]) == old(multiset(s[..m])) && s[m..] == old(s[m..])
        decreases m - i
      {
        var j := LesserChild(i, m);
        if j == -1 || !(s[j].k < s[i].k) {
          Rested(s[..m], i);
          break;
        }
        Sunk(s[..m], i, j);
        Swap(i, j, m);
        i := j;
      }
    }

    /** The child with the lesser key, or -1 when there is none. */
    method LesserChild(i: nat, m: nat) returns (j: int)
      requires i < m <= s.Length
      ensures j == -1 ==> forall c :: 0 < c < m ==> Parent(c) != i
      ensures j != -1 ==> i < j < m && Parent(j) == i
      ensures j != -1 ==> forall c :: 0 < c < m && Parent(c) == i ==> s[j].k <= s[..m][c].k
    {
      forall c | 0 < c < m ensures Parent(c) == i <==> c == 2 * i + 1 || c == 2 * i + 2 { Children(i, c); }
      j := 2 * i + 1;
      if j >= m { return -1; }
      if j + 1 < m && !(s[j].k < s[j + 1].k) { j := j + 1; }
    }

    method Push(x: Sample)
      requires Valid() && n < s.Length
      modifies this, s
      ensures Valid() && n == old(n) + 1 && s[n..] == old(s[n + 1..])
      ensures multiset(s[..n]) == old(multiset(s[..n])) + multiset{x}
    {
      hide IsHeap, RisingAt;
      s[n] := x;
      n := n + 1;
      assert s[..n] == old(s[..n]) + [x];
      Appended(old(s[..n]), x);
      Up(n - 1);
    }

    /** Take out a sample with the least key. */
    method Pop() returns (x: Sample)
      requires Valid() && n > 0
      modifies this, s
      ensures Valid() && n == old(n) - 1
      ensures old(multiset(s[..n])) == multiset(s[..n]) + multiset{x}
      ensures forall y <- old(multiset(s[..n])) :: x.k <= y.k
    {
      hide IsHeap, SinkingAt, Swapped;
      ghost var before := s[..n];
      LeastOfAll(before);
      var m := n - 1;
      Swap(0, m, n);
      RootToEnd(before);
      assert s[..n][..m] == s[..m] && s[..n][m] == s[m..][0];
      Down(m);
      x := s[m];
      n := m;
    }

    method Clear()
      requires Valid()
      modifies `n
      ensures Valid() && n == 0
    {
      n := 0;
    }
  }

  lemma NoHeap(s: seq<Sample>)
    requires s == []
    ensures IsHeap(s)
  {
  }

  lemma Appended(s: seq<Sample>, x: Sample)
    requires IsHeap(s)
    ensures RisingAt(s + [x], |s|)
  {
  }

  lemma RootToEnd(s: seq<Sample>)
    requires IsHeap(s) && s != []
    ensures var m := |s| - 1;
            var t := Swapped(s, 0, m);
            SinkingAt(t[..m], 0) && t[m] == s[0] && multiset(s) == multiset(t[..m]) + multiset{s[0]}
  {
    var t := Swapped(s, 0, |s| - 1);
    assert t == t[..|s| - 1] + [s[0]];
  }

  lemma LeastOfAll(s: seq<Sample>)
    requires IsHeap(s) && s != []
    ensures forall y <- multiset(s) :: s[0].k <= y.k
  {
    forall y <- multiset(s) ensures s[0].k <= y.k {
      var j :| 0 <= j < |s| && s[j] == y;
      RootLeast(s, j);
    }
  }

  function Scale(x: Sample, factor: real): Sample {
    Sample(x.k * factor, x.v)
  }

  /** The samples with their keys multiplied. */
  ghost function Scaled(s: seq<Sample>, factor: real): (r: seq<Sample>)
    ensures |r| == |s| && forall i :: 0 <= i < |s| ==> r[i].k == s[i].k * factor && r[i].v == s[i].v
  {
    seq(|s|, i requires 0 <= i < |s| => Scale(s[i], factor))
  }

  ghost function Values(s: seq<Sample>): (r: seq<int>)
    ensures |r| == |s| && forall i :: 0 <= i < |s| ==> r[i] == s[i].v
  {
    seq(|s|, i requires 0 <= i < |s| => s[i].v)
  }

  lemma ScaledNext(s: seq<Sample>, i: nat, factor: real)
    requires i < |s|
    ensures multiset(Scaled(s[..i + 1], factor)) == multiset(Scaled(s[..i], factor)) + multiset{Scale(s[i], factor)}
  {
    assert Scaled(s[..i + 1], factor) == Scaled(s[..i], factor) + [Scale(s[i], factor)];
  }

  /** The same samples in another order have the same values. */
  lemma {:induction false} SameValues(a: seq<Sample>, b: seq<Sample>)
    requires multiset(a) == multiset(b)
    ensures multiset(Values(a)) == multiset(Values(b))
    decreases |a|
  {
    hide Values;
    if a == [] {
      assert |b| == |multiset(b)|;
    } else {
      assert a[0] in multiset(b);
      var j :| 0 <= j < |b| && b[j] == a[0];
      TakenOut(a, 0);
      TakenOut(b, j);
      SameValues(a[..0] + a[1..], b[..j] + b[j + 1..]);
    }
  }

  lemma TakenOut(s: seq<Sample>, j: nat)
    requires j < |s|
    ensures multiset(s[..j] + s[j + 1..]) == multiset(s) - multiset{s[j]}
    ensures multiset(Values(s)) == multiset(Values(s[..j] + s[j + 1..])) + multiset{s[j].v}
  {
    assert s == s[..j] + [s[j]] + s[j + 1..];
    var vs := Values(s);
    assert vs == vs[..j] + [vs[j]] + vs[j + 1..];
    assert Values(s[..j] + s[j + 1..]) == vs[..j] + vs[j + 1..];
  }

  /** One hour in nanoseconds. */
  const RESCALE_THRESHOLD := 3_600_000_000_000

  /** What an update brings: the time, the value, the random key drawn for it, and the factor by which
      keys shrink if it triggers a rescale. */
  datatype Input = Input(t: int, v: int, key: real, factor: real)

  /** The new sample came in, and one with the least key went out if one had to. */
  ghost predicate Replaced(before: multiset<Sample>, evicted: Option<Sample>, x: Sample, after: multiset<Sample>) {
    match evicted
    case None => after == before + multiset{x}
    case Some(e) => e in before && after == before - multiset{e} + multiset{x} && forall y <- before :: e.k <= y.k
  }

  class ExpDecaySample {
    const reservoirSize: nat
    const values: Heap
    var count: nat
    var t0: int
    var t1: int

    /** The reservoir holds as many samples as were recorded, up to its size, in heap order. */
    ghost predicate Valid()
      reads this, values, values.s
    {
      reservoirSize > 0 && values.Valid() && values.s.Length == reservoirSize &&
      values.n == if count < reservoirSize then count else reservoirSize
    }

    ghost function Contents(): seq<Sample>
      reads this, values, values.s
      requires values.n <= values.s.Length
    {
      values.s[..values.n]
    }

    constructor (reservoirSize: nat, now: int)
      requires reservoirSize > 0
      ensures Valid() && count == 0 && this.reservoirSize == reservoirSize && fresh(values) && fresh(values.s)
      ensures t0 == now && t1 == now + RESCALE_THRESHOLD
    {
      this.reservoirSize := reservoirSize;
      values := new Heap(reservoirSize);
      count, t0, t1 := 0, now, now + RESCALE_THRESHOLD;
    }

    method Clear(now: int)
      requires Valid()
      modifies this, values
      ensures Valid() && count == 0 && Contents() == [] && t0 == now && t1 == now + RESCALE_THRESHOLD
    {
      count, t0, t1 := 0, now, now + RESCALE_THRESHOLD;
      values.Clear();
    }

    /** Push every sample again with its key multiplied, into the array it is read from. */
    method Rescale(factor: real)
      requires values.Valid()
      modifies values, values.s
      ensures values.Valid() && values.n == old(values.n)
      ensures multiset(Contents()) == multiset(Scaled(old(Contents()), factor))
    {
      hide IsHeap, Scaled;
      var s, len := values.s, values.n;
      ghost var before, all := Contents(), s[..];
      values.Clear();
      NothingScaled(before, factor);
      for i := 0 to len
        invariant values.Valid() && values.n == i && s[i..] == all[i..]
        invariant multiset(s[..i]) == multiset(Scaled(before[..i], factor))
      {
        var x := s[i];
        assert x == s[i..][0] == before[i];
        assert s[i + 1..] == s[i..][1..] && all[i + 1..] == all[i..][1..];
        ScaledNext(before, i, factor);
        values.Push(Scale(x, factor));
      }
      assert before[..len] == before;
    }

    lemma NothingScaled(s: seq<Sample>, factor: real)
      ensures Scaled(s[..0], factor) == []
    {
    }

    /** Make room if the reservoir is full, and put the new sample in: `mid` is what it holds then. */
    method Insert(x: Sample) returns (ghost evicted: Option<Sample>, ghost mid: seq<Sample>)
      requires Valid()
      modifies `count, values, values.s
      ensures Valid() && count == old(count) + 1 && mid == Contents()
      ensures evicted.Some? <==> old(values.n) == reservoirSize
      ensures Replaced(old(multiset(Contents())), evicted, x, multiset(mid))
    {
      hide IsHeap;
      count := count + 1;
      evicted := None;
      if values.n == reservoirSize {
        var least := values.Pop();
        evicted := Some(least);
      }
      values.Push(x);
      mid := Contents();
    }

    /** Record one value.  A full reservoir first loses a sample with the least key; after the threshold
        all keys are rescaled, which keeps the values. */
    method Update(inp: Input) returns (ghost evicted: Option<Sample>, ghost mid: seq<Sample>)
      requires Valid()
      modifies this, values, values.s
      ensures Valid() && count == old(count) + 1
      ensures evicted.Some? <==> old(values.n) == reservoirSize
      ensures Replaced(old(multiset(Contents())), evicted, Sample(inp.key, inp.v), multiset(mid))
      ensures multiset(Contents()) == multiset(if inp.t > old(t1) then Scaled(mid, inp.factor) else mid)
      ensures multiset(Values(Contents())) == multiset(Values(mid))
      ensures inp.t > old(t1) ==> t0 == inp.t && t1 == inp.t + RESCALE_THRESHOLD
      ensures inp.t <= old(t1) ==> t0 == old(t0) && t1 == old(t1)
    {
      hide IsHeap, Scaled, Values, Replaced;
      evicted, mid := Insert(Sample(inp.key, inp.v));
      if inp.t > t1 {
        t0, t1 := inp.t, inp.t + RESCALE_THRESHOLD;
        Rescale(inp.factor);
        SameValues(Contents(), Scaled(mid, inp.factor));
        ScaledValues(mid, inp.factor);
      }
    }

    lemma ScaledValues(s: seq<Sample>, factor: real)
      ensures Values(Scaled(s, factor)) == Values(s)
    {
    }

    /** Every run: the reservoir is never over its size, and is full once enough was recorded. */
    method Run(inputs: seq<Input>)
      requires Valid() && count == 0
      modifies this, values, values.s
      ensures Valid() && count == |inputs|
      ensures |Contents()| == if |inputs| < reservoirSize then |inputs| else reservoirSize
    {
      hide IsHeap, Scaled, Values;
      for i := 0 to |inputs|
        invariant Valid() && count == i
      {
        ghost var evicted, mid := Update(inputs[i]);
      }
    }
  }
}

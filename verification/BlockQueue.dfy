/** The relay's block cache and its head: core/blockchain.go.  A hash determines the number of its
    block. */
module BlockQueue {
  import opened Options

  type Hash = int

  datatype Block = Block(hash: Hash, number: nat)

  /** Blocks by number, in the order they came. */
  type Store = map<nat, seq<Block>>

  ghost predicate Holds(u: Store, numberOf: Hash -> nat) {
    forall n <- u :: |u[n]| > 0 && forall i :: 0 <= i < |u[n]| ==> u[n][i].number == n == numberOf(u[n][i].hash)
  }

  ghost predicate Stored(u: Store, h: Hash, n: nat) {
    n in u && exists i :: 0 <= i < |u[n]| && u[n][i].hash == h
  }

  /** The index from hashes to numbers knows exactly the stored blocks. */
  ghost predicate Indexed(u: Store, index: map<Hash, nat>) {
    forall h, n :: (h in index && index[h] == n) <==> Stored(u, h, n)
  }

  /** The store with one more block. */
  function With(u: Store, b: Block): Store {
    u[b.number := (if b.number in u then u[b.number] else []) + [b]]
  }

  /** What a push makes of the store: another block of a known number is added to it; a new number, when
      the store is full, takes the place of the number that came in last. */
  function Pushed(u: Store, latest: nat, size: nat, b: Block): Store {
    if b.number in u || |u| < size then With(u, b) else With(u - {latest}, b)
  }

  function LatestAfter(u: Store, latest: nat, b: Block): nat {
    if b.number in u then latest else b.number
  }

  lemma PushedCount(u: Store, latest: nat, size: nat, b: Block)
    requires (u != map[] ==> latest in u) && |u| <= size && size > 0
    ensures |Pushed(u, latest, size, b)| <= size && LatestAfter(u, latest, b) in Pushed(u, latest, size, b)
    ensures |Pushed(u, latest, size, b)| == if b.number in u || |u| == size then |u| else |u| + 1
  {
    WithCount(u, b);
    if b.number !in u && |u| == size {
      WithCount(u - {latest}, b);
      assert (u - {latest}).Keys == u.Keys - {latest};
      assert |u - {latest}| == |(u - {latest}).Keys| && |u| == |u.Keys|;
    }
    hide With;
  }

  lemma WithCount(u: Store, b: Block)
    ensures With(u, b).Keys == u.Keys + {b.number}
    ensures |With(u, b)| == if b.number in u then |u| else |u| + 1
  {
    var u' := With(u, b);
    assert u'.Keys == u.Keys + {b.number};
    assert |u'| == |u'.Keys| && |u| == |u.Keys|;
    if b.number in u { assert u'.Keys == u.Keys; }
  }

  /** The blocks of a number stay in the order they came: what was stored keeps its place, and the new
      block comes last among those of its number. */
  lemma InOrder(u: Store, latest: nat, size: nat, b: Block, n: nat)
    requires n in Pushed(u, latest, size, b)
    ensures n != b.number ==> n in u && Pushed(u, latest, size, b)[n] == u[n]
    ensures n == b.number && n in u ==> Pushed(u, latest, size, b)[n] == u[n] + [b]
    ensures n == b.number && n !in u ==> Pushed(u, latest, size, b)[n] == [b]
  {
  }

  lemma StoredWith(u: Store, b: Block, h: Hash, n: nat)
    ensures Stored(With(u, b), h, n) <==> Stored(u, h, n) || (h == b.hash && n == b.number)
  {
    var u' := With(u, b);
    if Stored(u, h, n) {
      var i :| 0 <= i < |u[n]| && u[n][i].hash == h;
      assert u'[n][i] == u[n][i];
    }
    assert u'[b.number][|u'[b.number]| - 1] == b;
  }

  lemma IndexedWith(u: Store, index: map<Hash, nat>, numberOf: Hash -> nat, b: Block)
    requires Holds(u, numberOf) && Indexed(u, index) && numberOf(b.hash) == b.number
    ensures Holds(With(u, b), numberOf) && Indexed(With(u, b), index[b.hash := b.number])
  {
    var index' := index[b.hash := b.number];
    forall h, n ensures (h in index' && index'[h] == n) <==> Stored(With(u, b), h, n) {
      StoredWith(u, b, h, n);
      if Stored(u, h, n) { StoredNumber(u, numberOf, h, n); }
    }
  }

  lemma StoredNumber(u: Store, numberOf: Hash -> nat, h: Hash, n: nat)
    requires Holds(u, numberOf) && Stored(u, h, n)
    ensures numberOf(h) == n
  {
  }

  /** Without the hashes of one number the index fits the store without that number. */
  lemma IndexedWithout(u: Store, index: map<Hash, nat>, numberOf: Hash -> nat, victim: nat, index': map<Hash, nat>)
    requires Holds(u, numberOf) && Indexed(u, index) && victim in u
    requires forall h :: h in index' <==> h in index && !Stored(u, h, victim)
    requires forall h <- index' :: index'[h] == index[h]
    ensures Holds(u - {victim}, numberOf) && Indexed(u - {victim}, index')
  {
    forall h, n ensures (h in index' && index'[h] == n) <==> Stored(u - {victim}, h, n) {
      if Stored(u, h, n) {
        StoredNumber(u, numberOf, h, n);
        if Stored(u, h, victim) { StoredNumber(u, numberOf, h, victim); }
        if n != victim { StoredKept(u, victim, h, n); }
      }
      if Stored(u - {victim}, h, n) { StoredKept(u, victim, h, n); }
    }
  }

  lemma StoredKept(u: Store, victim: nat, h: Hash, n: nat)
    requires n != victim
    ensures Stored(u - {victim}, h, n) <==> Stored(u, h, n)
  {
    if n in u { assert (u - {victim})[n] == u[n]; }
  }

  class Queue {
    const size: nat
    const blockNumbers: array<nat>
    var uniqueNumbers: Store
    var hash2Number: map<Hash, nat>
    var head: nat
    var count: nat
    ghost const numberOf: Hash -> nat

    /** The number that came in last: the slot before the head. */
    function Latest(): nat
      reads `head, blockNumbers
      requires 0 < size == blockNumbers.Length && head < size
    {
      blockNumbers[(head + size - 1) % size]
    }

    ghost predicate Valid()
      reads this, blockNumbers
    {
      0 < size == blockNumbers.Length && head < size && count == |uniqueNumbers| <= size &&
      Holds(uniqueNumbers, numberOf) && Indexed(uniqueNumbers, hash2Number) &&
      (uniqueNumbers != map[] ==> Latest() in uniqueNumbers)
    }

    constructor (capacity: nat, ghost numberOf: Hash -> nat)
      requires capacity > 0
      ensures Valid() && uniqueNumbers == map[] && size == capacity && fresh(blockNumbers) && this.numberOf == numberOf
    {
      size, head, count := capacity, 0, 0;
      blockNumbers := new nat[capacity](_ => 0);
      uniqueNumbers, hash2Number := map[], map[];
      this.numberOf := numberOf;
    }

    method Add(b: Block)
      requires Holds(uniqueNumbers, numberOf) && Indexed(uniqueNumbers, hash2Number) && numberOf(b.hash) == b.number
      modifies `uniqueNumbers, `hash2Number
      ensures Holds(uniqueNumbers, numberOf) && Indexed(uniqueNumbers, hash2Number)
      ensures uniqueNumbers == With(old(uniqueNumbers), b)
    {
      hide Holds, Indexed;
      IndexedWith(uniqueNumbers, hash2Number, numberOf, b);
      uniqueNumbers := With(uniqueNumbers, b);
      hash2Number := hash2Number[b.hash := b.number];
    }

    /** Drop all blocks of a number and their hashes. */
    method Drop(victim: nat)
      requires Holds(uniqueNumbers, numberOf) && Indexed(uniqueNumbers, hash2Number) && victim in uniqueNumbers
      modifies `uniqueNumbers, `hash2Number
      ensures Holds(uniqueNumbers, numberOf) && Indexed(uniqueNumbers, hash2Number)
      ensures uniqueNumbers == old(uniqueNumbers) - {victim}
    {
      hide Holds, Indexed;
      var blocks := uniqueNumbers[victim];
      for i := 0 to |blocks|
        invariant uniqueNumbers == old(uniqueNumbers)
        invariant forall h :: h in hash2Number <==>
                    h in old(hash2Number) && forall j :: 0 <= j < i ==> blocks[j].hash != h
        invariant forall h <- hash2Number :: hash2Number[h] == old(hash2Number)[h]
      {
        hash2Number := hash2Number - {blocks[i].hash};
      }
      IndexedWithout(uniqueNumbers, old(hash2Number), numberOf, victim, hash2Number);
      uniqueNumbers := uniqueNumbers - {victim};
    }

    method Push(b: Block)
      requires Valid() && numberOf(b.hash) == b.number
      modifies this, blockNumbers
      ensures Valid()
      ensures uniqueNumbers == Pushed(old(uniqueNumbers), old(Latest()), size, b)
      ensures Latest() == LatestAfter(old(uniqueNumbers), old(Latest()), b)
      ensures b.number in old(uniqueNumbers) ==> head == old(head) && blockNumbers[..] == old(blockNumbers[..])
      ensures b.number !in old(uniqueNumbers) ==>
                head == (old(head) + 1) % size && blockNumbers[..] == old(blockNumbers[..])[old(head) := b.number]
    {
      hide Holds, Indexed, With, Latest;
      PushedCount(uniqueNumbers, Latest(), size, b);
      if b.number in uniqueNumbers {
        Add(b);
        return;
      }
      if count >= size {
        Drop(Latest());
        count := count - 1;
      }
      Enter(b.number);
      Add(b);
      count := count + 1;
    }

    /** The first block of the latest number, if anything is stored. */
    method First() returns (b: Option<Block>)
      requires Valid()
      ensures b.None? <==> uniqueNumbers == map[]
      ensures b.Some? ==> Latest() in uniqueNumbers && b.value == uniqueNumbers[Latest()][0]
    {
      if count > 0 {
        assert uniqueNumbers != map[];
        return Some(uniqueNumbers[blockNumbers[(head + size - 1) % size]][0]);
      }
      return None;
    }

    method Exist(hash: Hash, number: nat) returns (found: bool)
      ensures found <==> Stored(uniqueNumbers, hash, number)
    {
      if number !in uniqueNumbers { return false; }
      var blocks := uniqueNumbers[number];
      for i := 0 to |blocks|
        invariant forall j :: 0 <= j < i ==> blocks[j].hash != hash
      {
        if blocks[i].hash == hash { return true; }
      }
      return false;
    }

    method ExistByHash(hash: Hash) returns (found: bool)
      requires Valid()
      ensures found <==> exists n :: Stored(uniqueNumbers, hash, n)
    {
      found := hash in hash2Number;
      if found { assert Stored(uniqueNumbers, hash, hash2Number[hash]); }
    }

    /** The stored block with the hash, if there is one. */
    method GetBlockByHash(hash: Hash) returns (b: Option<Block>)
      requires Valid()
      ensures b.Some? ==> b.value.hash == hash && Stored(uniqueNumbers, hash, b.value.number)
      ensures b.None? <==> forall n :: !Stored(uniqueNumbers, hash, n)
    {
      b := None;
      if hash in hash2Number {
        var number := hash2Number[hash];
        assert Stored(uniqueNumbers, hash, number);
        var blocks := uniqueNumbers[number];
        for i := 0 to |blocks|
          invariant b == None && forall j :: 0 <= j < i ==> blocks[j].hash != hash
        {
          if blocks[i].hash == hash { b := Some(blocks[i]); return; }
        }
      }
    }

    /** Write a number into the ring at the head and move on. */
    method Enter(n: nat)
      requires 0 < size == blockNumbers.Length && head < size
      modifies `head, blockNumbers
      ensures head == (old(head) + 1) % size && Latest() == n
      ensures blockNumbers[..] == old(blockNumbers[..])[old(head) := n]
    {
      blockNumbers[head] := n;
      SlotBefore(head, size);
      head := (head + 1) % size;
    }
  }

  const BLOCK_CONTAINER_SIZE_LIMIT := 128

  function Max(a: int, b: int): int {
    if a > b then a else b
  }

  ghost function Highest(from: nat, bs: seq<Block>): nat {
    if bs == [] then from else Max(Highest(from, bs[..|bs| - 1]), bs[|bs| - 1].number)
  }

  lemma {:induction false} HighestIs(from: nat, bs: seq<Block>)
    ensures Highest(from, bs) >= from && forall i :: 0 <= i < |bs| ==> bs[i].number <= Highest(from, bs)
    ensures Highest(from, bs) == from || exists i :: 0 <= i < |bs| && bs[i].number == Highest(from, bs)
    decreases |bs|
  {
    if bs != [] {
      var init := bs[..|bs| - 1];
      HighestIs(from, init);
      assert forall i :: 0 <= i < |init| ==> init[i] == bs[i];
    }
  }

  class Blockchain {
    const container: Queue
    var currentBlock: Block

    ghost predicate Valid()
      reads this, container, container.blockNumbers
    {
      container.Valid() && container.numberOf(currentBlock.hash) == currentBlock.number
    }

    constructor (genesisChild: Block, ghost numberOf: Hash -> nat)
      requires genesisChild.number == 1 == numberOf(genesisChild.hash)
      ensures Valid() && currentBlock == genesisChild && container.uniqueNumbers == map[]
      ensures container.size == BLOCK_CONTAINER_SIZE_LIMIT && container.numberOf == numberOf
      ensures fresh(container) && fresh(container.blockNumbers)
    {
      container := new Queue(BLOCK_CONTAINER_SIZE_LIMIT, numberOf);
      currentBlock := genesisChild;
    }

    /** Store a block unless it is stored already, and make it the head if it is higher. */
    method EnqueueNewBlock(b: Block)
      requires Valid() && container.numberOf(b.hash) == b.number
      modifies this, container, container.blockNumbers
      ensures Valid() && currentBlock.number == Max(old(currentBlock.number), b.number)
      ensures currentBlock == old(currentBlock) || currentBlock == b
      ensures Stored(container.uniqueNumbers, b.hash, b.number)
      ensures old(Stored(container.uniqueNumbers, b.hash, b.number)) ==>
                container.uniqueNumbers == old(container.uniqueNumbers)
      ensures !old(Stored(container.uniqueNumbers, b.hash, b.number)) ==>
                container.uniqueNumbers ==
                Pushed(old(container.uniqueNumbers), old(container.Latest()), container.size, b)
    {
      hide Holds, Indexed, Pushed, Stored;
      var known := container.Exist(b.hash, b.number);
      if !known {
        PushedStores(container.uniqueNumbers, container.Latest(), container.size, b);
        container.Push(b);
      }
      if b.number > currentBlock.number && b.hash != currentBlock.hash {
        currentBlock := b;
      }
    }

    /** The head is the highest block ever enqueued, or the first. */
    method InsertChain(bs: seq<Block>)
      requires Valid() && forall i :: 0 <= i < |bs| ==> container.numberOf(bs[i].hash) == bs[i].number
      modifies this, container, container.blockNumbers
      ensures Valid() && currentBlock.number == Highest(old(currentBlock.number), bs)
    {
      hide Holds, Indexed, Stored, Pushed;
      for i := 0 to |bs|
        invariant Valid() && currentBlock.number == Highest(old(currentBlock.number), bs[..i])
      {
        EnqueueNewBlock(bs[i]);
        assert bs[..i + 1][..i] == bs[..i];
      }
      assert bs[..|bs|] == bs;
    }
  }

  lemma PushedStores(u: Store, latest: nat, size: nat, b: Block)
    ensures Stored(Pushed(u, latest, size, b), b.hash, b.number)
  {
    StoredWith(u, b, b.hash, b.number);
    StoredWith(u - {latest}, b, b.hash, b.number);
  }

  lemma SlotBefore(head: nat, size: nat)
    requires head < size
    ensures ((head + 1) % size + size - 1) % size == head && (head + 1) % size < size
  {
    if head + 1 == size {
      Wraps(0, size);
      assert (head + 1) % size == 0;
    } else {
      Wraps(head, size);
      assert (head + 1) % size == head + 1;
    }
  }

  lemma Wraps(r: nat, m: nat)
    requires r < m
    ensures (r + m) % m == r
  {
    var q := (r + m) / m;
    assert (r + m) % m == r + m - q * m;
    Multiples(q, m);
  }

  lemma Multiples(q: int, m: nat)
    ensures q <= 0 ==> q * m <= 0
    ensures q >= 2 ==> q * m >= 2 * m
  {
  }

  /** Once the store is full, a push leaves all numbers but the latest as they are. */
  lemma BaseFixed(u: Store, latest: nat, size: nat, b: Block)
    requires |u| == size > 0 && latest in u
    ensures var u' := Pushed(u, latest, size, b);
            var latest' := LatestAfter(u, latest, b);
            |u'| == size && latest' in u' && u'.Keys - {latest'} == u.Keys - {latest}
  {
    PushedCount(u, latest, size, b);
    WithCount(u, b);
    WithCount(u - {latest}, b);
    hide With;
    assert b.number in u ==> Pushed(u, latest, size, b).Keys == u.Keys;
    assert b.number !in u ==> Pushed(u, latest, size, b).Keys == u.Keys - {latest} + {b.number};
  }

  ghost function PushedAll(u: Store, latest: nat, size: nat, bs: seq<Block>): (Store, nat) {
    if bs == [] then (u, latest)
    else
      var (u', latest') := PushedAll(u, latest, size, bs[..|bs| - 1]);
      (Pushed(u', latest', size, bs[|bs| - 1]), LatestAfter(u', latest', bs[|bs| - 1]))
  }

  /** For every sequence of pushes after the store was full: of the numbers it held then, all but the
      latest are still there, and nothing else but the latest new number. */
  lemma {:induction false} BaseFixedForever(u: Store, latest: nat, size: nat, bs: seq<Block>)
    requires |u| == size > 0 && latest in u
    ensures var (u', latest') := PushedAll(u, latest, size, bs);
            |u'| == size && latest' in u' && u'.Keys - {latest'} == u.Keys - {latest}
    decreases |bs|
  {
    hide Pushed, LatestAfter;
    if bs != [] {
      var init := bs[..|bs| - 1];
      BaseFixedForever(u, latest, size, init);
      var (u', latest') := PushedAll(u, latest, size, init);
      BaseFixed(u', latest', size, bs[|bs| - 1]);
    }
  }
}

/** Bytes and big-endian integers, shared by the RLP codec and the relay frames. */
module Bytes {

  type u8 = b: int | 0 <= b < 256

  /** Go's `uint64` and `int` limits. */
  const TWO64: nat := 0x1_0000_0000_0000_0000
  const TWO63: nat := 0x8000_0000_0000_0000

  /** The big-endian bytes of n without leading zeros; zero has no bytes. */
  function BE(n: nat): (s: seq<u8>)
    ensures n == 0 <==> s == []
    ensures s != [] ==> s[0] != 0
  {
    if n == 0 then [] else BE(n / 256) + [n % 256]
  }

  /** The number a big-endian byte string denotes; leading zeros are allowed. */
  function Val(s: seq<u8>): nat
  {
    if s == [] then 0 else Val(s[..|s| - 1]) * 256 + s[|s| - 1]
  }

  lemma SliceJoin(s: seq<u8>, lo: nat, mid: nat, hi: nat)
    requires lo <= mid <= hi <= |s|
    ensures s[lo..mid] + s[mid..hi] == s[lo..hi]
  {
  }

  lemma SliceWithin(s: seq<u8>, lo: nat, hi: nat, a: nat, b: nat)
    requires lo <= hi <= |s| && a <= b <= hi - lo
    ensures s[lo..hi][a..b] == s[lo + a..lo + b]
  {
    var l, r := s[lo..hi][a..b], s[lo + a..lo + b];
    assert |l| == |r|;
    forall i | 0 <= i < |l| ensures l[i] == r[i] {
      assert l[i] == s[lo..hi][a + i] == s[lo + a + i];
    }
  }

  function Pow256(k: nat): (p: nat)
    ensures p >= 1
  {
    if k == 0 then 1 else 256 * Pow256(k - 1)
  }

  lemma {:induction false} ValOfBE(n: nat)
    ensures Val(BE(n)) == n
  {
    if n != 0 {
      ValOfBE(n / 256);
      assert BE(n)[..|BE(n)| - 1] == BE(n / 256);
    }
  }

  /** A string without a leading zero is the canonical form of its value. */
  lemma {:induction false} BEOfVal(s: seq<u8>)
    requires s == [] || s[0] != 0
    ensures BE(Val(s)) == s
  {
    if s != [] {
      var p := s[..|s| - 1];
      BEOfVal(p);
      if p == [] {
        assert s == [s[0]];
        assert Val(p) == 0;
        assert Val(s) == s[0];
        assert BE(s[0]) == BE(0) + [s[0]];
      } else {
        assert p[0] == s[0];
        assert Val(p) > 0;
        assert Val(s) / 256 == Val(p) && Val(s) % 256 == s[|s| - 1];
        assert s == p + [s[|s| - 1]];
      }
    }
  }

  lemma {:induction false} ValBound(s: seq<u8>)
    ensures Val(s) < Pow256(|s|)
  {
    if s != [] { ValBound(s[..|s| - 1]); }
  }

  /** The length of the canonical form is at most k exactly when n is below 256^k. */
  lemma {:induction false} BELength(n: nat, k: nat)
    ensures |BE(n)| <= k <==> n < Pow256(k)
  {
    if k == 0 {
    } else if n != 0 {
      BELength(n / 256, k - 1);
    }
  }

  lemma {:induction false} Pow256Grows(k: nat, m: nat)
    requires k <= m
    ensures Pow256(k) <= Pow256(m) && (1 <= k ==> 256 <= Pow256(k))
    decreases m
  {
    if k < m { Pow256Grows(k, m - 1); }
    if k > 0 { assert Pow256(k) == 256 * Pow256(k - 1); }
  }

  lemma Pow256Table()
    ensures Pow256(1) == 0x100 && Pow256(2) == 0x1_0000 && Pow256(3) == 0x100_0000
    ensures Pow256(4) == 0x1_0000_0000 && Pow256(5) == 0x100_0000_0000
    ensures Pow256(6) == 0x1_0000_0000_0000 && Pow256(7) == 0x100_0000_0000_0000
    ensures Pow256(8) == TWO64
  {
    assert Pow256(1) == 256 * Pow256(0);
    assert Pow256(2) == 256 * Pow256(1);
    assert Pow256(3) == 256 * Pow256(2);
    assert Pow256(4) == 256 * Pow256(3);
    assert Pow256(5) == 256 * Pow256(4);
    assert Pow256(6) == 256 * Pow256(5);
    assert Pow256(7) == 256 * Pow256(6);
    assert Pow256(8) == 256 * Pow256(7);
  }

  /** The last n big-endian bytes of i: byte k from the right is `byte(i >> 8k)`. */
  function Fixed(i: nat, n: nat): (s: seq<u8>)
    ensures |s| == n
  {
    if n == 0 then [] else Fixed(i / 256, n - 1) + [i % 256]
  }

  lemma {:induction false} FixedCanonical(i: nat, n: nat)
    requires n > 0 && (n > 1 ==> Pow256(n - 1) <= i) && i < Pow256(n)
    ensures Fixed(i, n) == if i == 0 then [0] else BE(i)
  {
    if n > 1 {
      assert Pow256(n) == 256 * Pow256(n - 1) && Pow256(n - 1) == 256 * Pow256(n - 2);
      FixedCanonical(i / 256, n - 1);
    } else {
      assert Pow256(1) == 256 * Pow256(0);
      assert Fixed(i, 1) == Fixed(i / 256, 0) + [i];
      if i != 0 { assert BE(i) == BE(0) + [i]; }
    }
  }
}

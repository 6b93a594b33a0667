/** Integers beyond 64 bits: how `writeBigInt` of rlp/encbuffer.go turns words into bytes. */
module RlpBigInt {
  import opened Bytes

  /** The number that 64-bit words denote, the least word first. */
  function BigVal(words: seq<nat>): nat {
    if words == [] then 0 else words[0] + TWO64 * BigVal(words[1..])
  }

  /** How a big integer keeps its words: no leading zero word. */
  ghost predicate Words(words: seq<nat>) {
    (forall i :: 0 <= i < |words| ==> words[i] < TWO64) && (words != [] ==> words[|words| - 1] > 0)
  }

  lemma ShiftByte(d: nat, q: nat, r: nat)
    ensures (d + 256 * q * r) / 256 == d / 256 + q * r && (d + 256 * q * r) % 256 == d % 256
  {
    assert 256 * q * r == 256 * (q * r);
  }

  lemma {:induction false} ShiftedLength(w: nat, r: nat, k: nat)
    requires w < Pow256(k) && r > 0
    ensures |BE(w + Pow256(k) * r)| == k + |BE(r)|
  {
    if k > 0 {
      ShiftByte(w, Pow256(k - 1), r);
      ShiftedLength(w / 256, r, k - 1);
    }
  }

  lemma {:induction false} BigLength(words: seq<nat>)
    requires Words(words) && words != []
    ensures |BE(BigVal(words))| == 8 * (|words| - 1) + |BE(words[|words| - 1])| && BigVal(words) > 0
    decreases |words|
  {
    hide BE;
    var rest := words[1..];
    if rest == [] {
      assert BigVal(words) == words[0];
    } else {
      BigLength(rest);
      Pow256Table();
      ShiftedLength(words[0], BigVal(rest), 8);
    }
  }

  /** As many bytes as the canonical form has are the canonical form. */
  lemma FixedIsBE(n: nat)
    requires n > 0
    ensures Fixed(n, |BE(n)|) == BE(n)
  {
    BELength(n, |BE(n)|);
    BELength(n, |BE(n)| - 1);
    FixedCanonical(n, |BE(n)|);
  }

  /** Fill the buffer from its end, eight bytes a word, until the front is reached. */
  method BigBytes(words: seq<nat>, length: nat) returns (b: seq<u8>)
    requires Words(words) && words != [] && length == |BE(BigVal(words))|
    ensures b == BE(BigVal(words))
  {
    hide BE, Words, Pow256, BigVal, Fixed;
    ghost var n := BigVal(words);
    BigLength(words);
    LastLength(words);
    FixedIsBE(n);
    var buf := new u8[length](_ => 0);
    var index := length;
    ghost var rem := n;
    assert words[0..] == words;
    for i := 0 to |words|
      invariant 0 <= index <= length && Fixed(n, length) == Fixed(rem, index) + buf[index..]
      invariant index > 0 ==> rem == BigVal(words[i..]) && index == length - 8 * i
    {
      if index > 0 {
        index, rem := PutWord(words, i, buf, index, rem, Fixed(n, length));
      }
    }
    assert buf[0..] == buf[..] && Fixed(rem, 0) == [];
    b := buf[..];
  }

  lemma LastLength(words: seq<nat>)
    requires Words(words) && words != []
    ensures |BE(words[|words| - 1])| <= 8
  {
    BELength(words[|words| - 1], 8);
    Pow256Table();
  }

  method PutWord(words: seq<nat>, i: nat, buf: array<u8>, index0: nat, ghost rem0: nat, ghost all: seq<u8>)
    returns (index: nat, ghost rem: nat)
    requires Words(words) && i < |words| && 0 < index0 <= buf.Length
    requires rem0 == BigVal(words[i..]) && all == Fixed(rem0, index0) + buf[index0..]
    modifies buf
    ensures index <= index0 && all == Fixed(rem, index) + buf[index..]
    ensures index > 0 ==> rem == BigVal(words[i + 1..]) && index == index0 - 8
  {
    hide Pow256, BigVal, Fixed, BE;
    index, rem := index0, rem0;
    var d: nat := words[i];
    ghost var rest := BigVal(words[i + 1..]);
    WordSplit(words, i);
    for j := 0 to 8
      invariant 0 <= d && index <= index0 <= buf.Length && all == Fixed(rem, index) + buf[index..]
      invariant index > 0 ==> index == index0 - j && rem == d + Pow256(8 - j) * rest && d < Pow256(8 - j)
    {
      if index == 0 { break; }
      NextByte(rem, d, j, rest, index);
      ghost var tail := buf[index..];
      index := index - 1;
      buf[index] := d % 256;
      assert buf[index..] == [d % 256] + tail;
      assert all == Fixed(rem / 256, index) + buf[index..];
      d, rem := d / 256, rem / 256;
    }
    NoMore(d, rest);
  }

  lemma WordSplit(words: seq<nat>, i: nat)
    requires Words(words) && i < |words|
    ensures BigVal(words[i..]) == words[i] + Pow256(8) * BigVal(words[i + 1..]) && words[i] < Pow256(8)
  {
    Pow256Table();
    assert words[i..][1..] == words[i + 1..];
  }

  lemma NextByte(rem: nat, d: nat, j: nat, rest: nat, index: nat)
    requires j < 8 && index > 0 && rem == d + Pow256(8 - j) * rest && d < Pow256(8 - j)
    ensures rem % 256 == d % 256 && rem / 256 == d / 256 + Pow256(7 - j) * rest && d / 256 < Pow256(7 - j)
    ensures Fixed(rem, index) == Fixed(rem / 256, index - 1) + [d % 256]
  {
    assert Pow256(8 - j) == 256 * Pow256(7 - j);
    ShiftByte(d, Pow256(7 - j), rest);
  }

  lemma NoMore(d: nat, rest: nat)
    ensures d < Pow256(0) ==> d + Pow256(0) * rest == rest
  {
  }
}

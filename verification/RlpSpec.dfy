/** Recursive Length Prefix as Appendix B of the Ethereum Yellow Paper defines it: the simple
    recursive encoding that the buffer, the splitter and the stream decoder are measured against. */
module RlpSpec {
  import opened Bytes

  datatype Error =
    | EOF | UnexpectedEOF | EOL | ExpectedString | ExpectedList | CanonInt | CanonSize
    | ElemTooLarge | ValueTooLarge | MoreThanOneValue | NotInList | NotAtEOL | UintOverflow

  datatype Result<+T> = Ok(value: T) | Err(error: Error)

  datatype Item = Str(bytes: seq<u8>) | Lst(items: seq<Item>)

  function HeadLen(n: nat): (l: nat)
    ensures l >= 1
  {
    if n < 56 then 1 else 1 + |BE(n)|
  }

  /** A string (0x80, 0xB7) or list (0xC0, 0xF7) header for a payload of n bytes. */
  function Header(small: u8, large: u8, n: nat): (h: seq<u8>)
    requires small + 55 <= 255 && large + 8 <= 255 && n < TWO64
    ensures |h| == HeadLen(n)
  {
    if n < 56 then [small + n]
    else (SizeOfSize(n); [large + |BE(n)|] + BE(n))
  }

  lemma SizeOfSize(n: nat)
    requires n < TWO64
    ensures |BE(n)| <= 8
  {
    BELength(n, 8);
    Pow256Table();
  }

  function StrHead(n: nat): seq<u8> requires n < TWO64 { Header(0x80, 0xB7, n) }
  function LstHead(n: nat): seq<u8> requires n < TWO64 { Header(0xC0, 0xF7, n) }

  predicate SelfEncoded(b: seq<u8>) { |b| == 1 && b[0] < 0x80 }

  function EncLen(x: Item): (l: nat)
    ensures l >= 1
    decreases x, 0
  {
    match x
    case Str(b) => if SelfEncoded(b) then 1 else HeadLen(|b|) + |b|
    case Lst(xs) => HeadLen(EncAllLen(xs)) + EncAllLen(xs)
  }

  function EncAllLen(xs: seq<Item>): nat
    decreases xs, 1
  {
    if xs == [] then 0 else EncLen(xs[0]) + EncAllLen(xs[1..])
  }

  /** The encoding of one item; the format only exists below 2^64 bytes. */
  function Enc(x: Item): (e: seq<u8>)
    requires EncLen(x) < TWO64
    ensures |e| == EncLen(x)
    decreases x, 0
  {
    match x
    case Str(b) => if SelfEncoded(b) then b else StrHead(|b|) + b
    case Lst(xs) => LstHead(EncAllLen(xs)) + EncAll(xs)
  }

  function EncAll(xs: seq<Item>): (e: seq<u8>)
    requires EncAllLen(xs) < TWO64
    ensures |e| == EncAllLen(xs)
    decreases xs, 1
  {
    if xs == [] then [] else Enc(xs[0]) + EncAll(xs[1..])
  }

  lemma {:induction false} EncAllAppendLen(xs: seq<Item>, x: Item)
    ensures EncAllLen(xs + [x]) == EncAllLen(xs) + EncLen(x)
  {
    if xs == [] {
      assert ([] + [x])[1..] == [];
    } else {
      EncAllAppendLen(xs[1..], x);
      assert (xs + [x])[1..] == xs[1..] + [x];
    }
  }

  lemma {:induction false} EncAllAppend(xs: seq<Item>, x: Item)
    requires EncAllLen(xs) + EncLen(x) < TWO64
    ensures EncAllLen(xs + [x]) == EncAllLen(xs) + EncLen(x)
    ensures EncAll(xs + [x]) == EncAll(xs) + Enc(x)
  {
    hide Enc, EncLen;
    EncAllAppendLen(xs, x);
    if xs == [] {
      assert (xs + [x])[1..] == [];
    } else {
      EncAllAppend(xs[1..], x);
      assert (xs + [x])[1..] == xs[1..] + [x];
    }
  }

  lemma {:induction false} EncAllPrefix(xs: seq<Item>, i: nat)
    requires i < |xs|
    ensures EncAllLen(xs[..i]) + EncLen(xs[i]) <= EncAllLen(xs)
    ensures EncAllLen(xs[..i + 1]) == EncAllLen(xs[..i]) + EncLen(xs[i])
    decreases |xs| - i
  {
    assert xs[..i + 1] == xs[..i] + [xs[i]];
    EncAllAppendLen(xs[..i], xs[i]);
    if i + 1 < |xs| {
      EncAllPrefix(xs, i + 1);
    } else {
      assert xs[..i + 1] == xs;
    }
  }
}

/** rlp/raw.go: taking an encoded byte string apart without decoding it. */
module RlpRaw {
  import opened Bytes
  import opened RlpSpec

  datatype Kind = Byte | String | List

  datatype Tag = Tag(kind: Kind, tagSize: nat, size: nat)

  datatype Parts = Parts(kind: Kind, content: seq<u8>, rest: seq<u8>)

  function ReadSize(b: seq<u8>, slen: nat): Result<nat>
    requires 1 <= slen <= 8
  {
    if slen > |b| then Err(UnexpectedEOF)
    else
      var s := Val(b[..slen]);
      if s < 56 || b[0] == 0 then Err(CanonSize) else Ok(s)
  }

  /** The kind, the length of the tag and the size it declares. */
  function TagOf(b: seq<u8>): Result<Tag>
  {
    if b == [] then Err(UnexpectedEOF)
    else
      var t := b[0];
      if t < 0x80 then Ok(Tag(Byte, 0, 1))
      else if t < 0xB8 then Ok(Tag(String, 1, t - 0x80))
      else if t < 0xC0 then LongTag(String, b, t - 0xB7)
      else if t < 0xF8 then Ok(Tag(List, 1, t - 0xC0))
      else LongTag(List, b, t - 0xF7)
  }

  function LongTag(k: Kind, b: seq<u8>, slen: nat): Result<Tag>
    requires b != [] && 1 <= slen <= 8
  {
    match ReadSize(b[1..], slen)
    case Err(e) => Err(e)
    case Ok(n) => Ok(Tag(k, slen + 1, n))
  }

  /** With a string that should have been a single byte rejected. */
  function ReadTag(b: seq<u8>): Result<Tag>
  {
    if |b| > 1 && b[0] == 0x81 && b[1] < 128 then Err(CanonSize) else TagOf(b)
  }

  /** The subtraction `len(buf) - tagsize` of the source is in uint64; it never wraps because
      reading the size has already checked that the tag lies inside the buffer. */
  function ReadKind(b: seq<u8>): (r: Result<Tag>)
    ensures r.Ok? ==> 1 <= r.value.tagSize + r.value.size <= |b|
  {
    match ReadTag(b)
    case Err(e) => Err(e)
    case Ok(t) => if t.size > |b| - t.tagSize then Err(ValueTooLarge) else Ok(t)
  }

  function Split(b: seq<u8>): Result<Parts>
  {
    match ReadKind(b)
    case Err(e) => Err(e)
    case Ok(t) => Ok(Parts(t.kind, b[t.tagSize..t.tagSize + t.size], b[t.tagSize + t.size..]))
  }

  function SplitString(b: seq<u8>): Result<Parts>
  {
    match Split(b)
    case Err(e) => Err(e)
    case Ok(p) => if p.kind == List then Err(ExpectedString) else Ok(p)
  }

  function SplitList(b: seq<u8>): Result<Parts>
  {
    match Split(b)
    case Err(e) => Err(e)
    case Ok(p) => if p.kind != List then Err(ExpectedList) else Ok(p)
  }

  function UintOf(c: seq<u8>): Result<nat>
  {
    if |c| == 0 then Ok(0)
    else if |c| == 1 then if c[0] == 0 then Err(CanonInt) else Ok(c[0])
    else if |c| > 8 then Err(UintOverflow)
    else if ReadSize(c, |c|).Err? then Err(CanonInt) else ReadSize(c, |c|)
  }

  function SplitUint64(b: seq<u8>): Result<(nat, seq<u8>)>
  {
    match SplitString(b)
    case Err(e) => Err(e)
    case Ok(p) =>
      match UintOf(p.content)
      case Err(e) => Err(e)
      case Ok(x) => Ok((x, p.rest))
  }

  /** What the bytes of one value of the given kind and content must be. */
  function Rejoin(k: Kind, content: seq<u8>): seq<u8>
    requires |content| < TWO64
  {
    match k
    case Byte => content
    case String => StrHead(|content|) + content
    case List => LstHead(|content|) + content
  }

  predicate Canonical(k: Kind, content: seq<u8>)
  {
    match k
    case Byte => SelfEncoded(content)
    case String => !SelfEncoded(content)
    case List => true
  }

  // ---- Split is exactly the inverse of putting a header in front ----

  lemma ReadSizeSound(b: seq<u8>, slen: nat)
    requires 1 <= slen <= 8 && ReadSize(b, slen).Ok?
    ensures var n := ReadSize(b, slen).value; 56 <= n < TWO64 && BE(n) == b[..slen]
  {
    BEOfVal(b[..slen]);
    ValBound(b[..slen]);
    assert Pow256(slen) <= Pow256(8) by { Pow256Table(); }
    Pow256Table();
  }

  lemma ReadSizeComplete(n: nat, rest: seq<u8>)
    requires 56 <= n < TWO64
    ensures 1 <= |BE(n)| <= 8 && ReadSize(BE(n) + rest, |BE(n)|) == Ok(n)
  {
    SizeOfSize(n);
    assert (BE(n) + rest)[..|BE(n)|] == BE(n);
    ValOfBE(n);
  }

  function HeadOf(k: Kind, n: nat): seq<u8>
    requires n < TWO64
  {
    match k
    case Byte => []
    case String => StrHead(n)
    case List => LstHead(n)
  }

  /** A long header: the tag byte t names a size field of t - large bytes. */
  lemma LongTagSound(b: seq<u8>, large: u8)
    requires b != [] && large in {0xB7, 0xF7} && 1 <= b[0] - large <= 8
    requires ReadSize(b[1..], b[0] - large).Ok?
    ensures var n := ReadSize(b[1..], b[0] - large).value;
            n < TWO64 && 1 + b[0] - large == HeadLen(n) <= |b| && b[..HeadLen(n)] == Header(large - 0x37, large, n)
  {
    var l := b[0] - large;
    ReadSizeSound(b[1..], l);
    assert b[..1 + l] == [b[0]] + b[1..][..l];
  }

  lemma TagSound(b: seq<u8>)
    requires TagOf(b).Ok?
    ensures var t := TagOf(b).value;
            t.size < TWO64 && t.tagSize <= |b| && b[..t.tagSize] == HeadOf(t.kind, t.size)
  {
    if b[0] >= 0xF8 {
      LongTagSound(b, 0xF7);
    } else if 0xB8 <= b[0] < 0xC0 {
      LongTagSound(b, 0xB7);
    }
  }

  lemma SplitSound(b: seq<u8>)
    requires Split(b).Ok?
    ensures var p := Split(b).value;
            Canonical(p.kind, p.content) && |p.content| < TWO64 && b == Rejoin(p.kind, p.content) + p.rest
  {
    TagSound(b);
    var t := ReadTag(b).value;
    assert b == b[..t.tagSize] + b[t.tagSize..t.tagSize + t.size] + b[t.tagSize + t.size..];
  }

  lemma LongTagComplete(large: u8, n: nat, tail: seq<u8>)
    requires large in {0xB7, 0xF7} && 56 <= n < TWO64
    ensures var b := Header(large - 0x37, large, n) + tail;
            b[0] == large + |BE(n)| && 1 <= |BE(n)| <= 8 && ReadSize(b[1..], |BE(n)|) == Ok(n)
  {
    hide BE, ReadSize;
    ReadSizeComplete(n, tail);
    var b := Header(large - 0x37, large, n) + tail;
    assert b[1..] == BE(n) + tail;
  }

  lemma TagComplete(k: Kind, n: nat, tail: seq<u8>)
    requires n < TWO64 && k != Byte
    ensures HeadOf(k, n) != [] && TagOf(HeadOf(k, n) + tail) == Ok(Tag(k, HeadLen(n), n))
  {
    if n >= 56 { LongTagComplete(if k == String then 0xB7 else 0xF7, n, tail); }
  }

  lemma SplitAt(b: seq<u8>, k: Kind, h: nat, content: seq<u8>, rest: seq<u8>)
    requires ReadTag(b) == Ok(Tag(k, h, |content|))
    requires h + |content| <= |b| && b[h..h + |content|] == content && b[h + |content|..] == rest
    ensures Split(b) == Ok(Parts(k, content, rest))
  {}

  lemma ByteTag(b: seq<u8>)
    requires b != [] && b[0] < 0x80
    ensures ReadTag(b) == Ok(Tag(Byte, 0, 1))
  {
  }

  lemma SplitComplete(k: Kind, content: seq<u8>, rest: seq<u8>)
    requires |content| < TWO64 && Canonical(k, content)
    ensures Split(Rejoin(k, content) + rest) == Ok(Parts(k, content, rest))
  {
    hide BE, ReadTag, Split, StrHead, LstHead;
    var b := Rejoin(k, content) + rest;
    var h := HeadOf(k, |content|);
    assert b == h + (content + rest);
    if k == Byte { ByteTag(b); } else { ReadTagComplete(k, content, rest); }
    ThreeParts(h, content, rest);
    SplitAt(b, k, |h|, content, rest);
  }

  lemma ThreeParts(h: seq<u8>, content: seq<u8>, rest: seq<u8>)
    ensures var b := h + (content + rest);
            b[|h|..|h| + |content|] == content && b[|h| + |content|..] == rest
  {
  }

  /** The tag of a canonical value is not taken for that of a single byte. */
  lemma ReadTagComplete(k: Kind, content: seq<u8>, rest: seq<u8>)
    requires |content| < TWO64 && k != Byte && Canonical(k, content)
    ensures var h := HeadOf(k, |content|);
            |h| == HeadLen(|content|) && ReadTag(h + (content + rest)) == Ok(Tag(k, |h|, |content|))
  {
    hide BE, TagOf;
    var h := HeadOf(k, |content|);
    var b := h + (content + rest);
    TagComplete(k, |content|, content + rest);
    assert b[0] == h[0];
    if k == String && |content| == 1 { assert b[1] == content[0]; }
  }

  /** `Split` finds the first item of an encoded sequence, whatever follows it. */
  lemma SplitItem(x: Item, rest: seq<u8>)
    requires EncLen(x) < TWO64
    ensures match x
            case Str(b) => Split(Enc(x) + rest) == Ok(Parts(if SelfEncoded(b) then Byte else String, b, rest))
            case Lst(xs) => Split(Enc(x) + rest) == Ok(Parts(List, EncAll(xs), rest))
  {
    match x
    case Str(b) => SplitComplete(if SelfEncoded(b) then Byte else String, b, rest);
    case Lst(xs) => SplitComplete(List, EncAll(xs), rest);
  }

  /** `SplitList` takes off a list exactly when the input begins with one. */
  lemma SplitListExact(b: seq<u8>, content: seq<u8>, rest: seq<u8>)
    requires |content| < TWO64
    ensures SplitList(b) == Ok(Parts(List, content, rest)) <==> b == LstHead(|content|) + content + rest
  {
    hide Split, LstHead;
    if Split(b).Ok? { SplitSound(b); }
    SplitComplete(List, content, rest);
  }

  lemma UintContent(c: seq<u8>, i: nat)
    requires i < TWO64 && 1 < |c| <= 8
    ensures ReadSize(c, |c|) == Ok(i) <==> c == BE(i)
  {
    assert c[..|c|] == c;
    if ReadSize(c, |c|) == Ok(i) { ReadSizeSound(c, |c|); }
    if c == BE(i) {
      ValOfBE(i);
      BELength(i, 1);
      Pow256Table();
    }
  }

  lemma OneByte(i: nat)
    requires i < TWO64
    ensures |BE(i)| == 1 ==> BE(i) == [i]
    ensures 0 < i < 256 ==> BE(i) == [i]
  {
    if |BE(i)| == 1 { BELength(i, 1); Pow256Table(); }
    if 0 < i < 256 { assert BE(i) == BE(0) + [i]; }
  }

  lemma UintOfParts(p: Parts, i: nat)
    requires i < TWO64
    ensures UintOf(p.content) == Ok(i) <==> p.content == BE(i)
  {
    OneByte(i);
    SizeOfSize(i);
    if 1 < |p.content| <= 8 { UintContent(p.content, i); }
  }

  /** An integer is accepted exactly in the form `AppendUint64` and the encoder give it. */
  lemma SplitUint64Exact(b: seq<u8>, i: nat, rest: seq<u8>)
    requires i < TWO64
    ensures SplitUint64(b) == Ok((i, rest)) <==> b == UintEnc(i) + rest
  {
    if SplitUint64(b) == Ok((i, rest)) {
      SplitSound(b);
      UintOfParts(Split(b).value, i);
    }
    if b == UintEnc(i) + rest {
      SizeOfSize(i);
      SplitItem(Str(BE(i)), rest);
      UintOfParts(Split(b).value, i);
    }
  }

  function UintEnc(i: nat): seq<u8>
    requires i < TWO64
  {
    SizeOfSize(i);
    Enc(Str(BE(i)))
  }

  // ---- The format is uniquely readable ----

  /** No encoding is a proper prefix of another, and equal encodings come from equal items. */
  lemma {:induction false} UniqueReading(x: Item, r: seq<u8>, y: Item, q: seq<u8>)
    requires EncLen(x) < TWO64 && EncLen(y) < TWO64
    requires Enc(x) + r == Enc(y) + q
    ensures x == y && r == q
    decreases x, 0
  {
    SplitItem(x, r);
    SplitItem(y, q);
    if x.Lst? { UniqueReadingAll(x.items, y.items); }
  }

  lemma {:induction false} UniqueReadingAll(xs: seq<Item>, ys: seq<Item>)
    requires EncAllLen(xs) < TWO64 && EncAllLen(ys) < TWO64
    requires EncAll(xs) == EncAll(ys)
    ensures xs == ys
    decreases xs, 1
  {
    if xs != [] && ys != [] {
      UniqueReading(xs[0], EncAll(xs[1..]), ys[0], EncAll(ys[1..]));
      UniqueReadingAll(xs[1..], ys[1..]);
      assert xs == [xs[0]] + xs[1..] && ys == [ys[0]] + ys[1..];
    }
  }

  // ---- CountValues ----

  /** The bytes of b cut into consecutive values by repeated splitting. */
  function Values(b: seq<u8>): Result<seq<Parts>>
    decreases |b|
  {
    if b == [] then Ok([])
    else
      match Split(b)
      case Err(e) => Err(e)
      case Ok(p) =>
        match Values(p.rest)
        case Err(e) => Err(e)
        case Ok(ps) => Ok([p] + ps)
  }

  lemma NoValues()
    ensures Values([]) == Ok([])
  {
  }

  lemma ValuesNext(b: seq<u8>)
    requires b != []
    ensures ReadKind(b).Err? ==> Values(b) == Err(ReadKind(b).error)
    ensures ReadKind(b).Ok? ==>
              var rest := Values(b[ReadKind(b).value.tagSize + ReadKind(b).value.size..]);
              if rest.Err? then Values(b) == rest else Values(b).Ok? && |Values(b).value| == 1 + |rest.value|
  {
    hide ReadKind;
  }

  /** The loop of the source; the number of values is the number of splits. */
  method CountValues(data: seq<u8>) returns (r: Result<nat>)
    ensures r == match Values(data) case Ok(ps) => Ok(|ps|) case Err(e) => Err(e)
  {
    hide ReadKind, Values;
    NoValues();
    var b := data;
    var i := 0;
    while |b| > 0
      invariant Values(data).Ok? <==> Values(b).Ok?
      invariant Values(data).Ok? ==> |Values(data).value| == i + |Values(b).value|
      invariant Values(data).Err? ==> Values(data) == Values(b)
      decreases |b|
    {
      ValuesNext(b);
      match ReadKind(b) {
        case Err(e) => return Err(e);
        case Ok(t) => b := b[t.tagSize + t.size..];
      }
      i := i + 1;
    }
    return Ok(i);
  }

  /** Counting and splitting see an encoded list payload as exactly its items. */
  function PartOf(x: Item, rest: seq<u8>): Parts
    requires EncLen(x) < TWO64
  {
    match x
    case Str(b) => Parts(if SelfEncoded(b) then Byte else String, b, rest)
    case Lst(xs) => Parts(List, EncAll(xs), rest)
  }

  predicate AreItems(ps: seq<Parts>, xs: seq<Item>)
    requires EncAllLen(xs) < TWO64
  {
    if xs == [] then ps == []
    else ps != [] && ps[0] == PartOf(xs[0], EncAll(xs[1..])) && AreItems(ps[1..], xs[1..])
  }

  lemma {:induction false} ValuesOfItems(xs: seq<Item>)
    requires EncAllLen(xs) < TWO64
    ensures Values(EncAll(xs)).Ok? && |Values(EncAll(xs)).value| == |xs|
    ensures AreItems(Values(EncAll(xs)).value, xs)
  {
    if xs != [] {
      ValuesOfItems(xs[1..]);
      SplitItem(xs[0], EncAll(xs[1..]));
      var ps := Values(EncAll(xs)).value;
      assert ps[1..] == Values(EncAll(xs[1..])).value;
    }
  }

  /** Conversely, whatever is counted is a concatenation of canonically headed values. */
  function JoinValues(ps: seq<Parts>): seq<u8>
    requires forall p :: p in ps ==> |p.content| < TWO64
  {
    if ps == [] then [] else Rejoin(ps[0].kind, ps[0].content) + JoinValues(ps[1..])
  }

  lemma {:induction false} ValuesSound(b: seq<u8>)
    requires Values(b).Ok?
    ensures forall p :: p in Values(b).value ==> |p.content| < TWO64 && Canonical(p.kind, p.content)
    ensures JoinValues(Values(b).value) == b
    decreases |b|
  {
    if b != [] {
      SplitSound(b);
      ValuesSound(Split(b).value.rest);
      var ps := Values(b).value;
      assert ps[1..] == Values(Split(b).value.rest).value;
    }
  }
}

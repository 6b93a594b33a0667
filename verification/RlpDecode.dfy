/** rlp/decode.go: decoding into an empty interface value, which yields the tree of the input, and
    `DecodeBytes`, which demands that the tree is the whole input. */
module RlpDecode {
  import opened Bytes
  import opened Options
  import opened RlpSpec
  import opened RlpRaw
  import opened RlpStream
  import RlpOutput
  import opened RlpBigInt

  /** The stream may read e next, without any limit getting in the way. */
  ghost predicate Ahead(s: Stream, e: seq<u8>)
    requires s.Valid()
    reads s
  {
    |e| <= s.Budget() && s.data[s.pos..s.pos + |e|] == e
  }

  /** The tag of an item, as the stream sees it. */
  lemma TagAhead(x: Item, w: seq<u8>)
    requires EncLen(x) <= |w| && EncLen(x) < TWO64 && w[..EncLen(x)] == Enc(x)
    ensures TagOf(w).Ok?
    ensures var t := TagOf(w).value;
            match x
            case Str(b) => if SelfEncoded(b) then t.kind == Byte
                           else t == Tag(String, HeadLen(|b|), |b|) && EncLen(x) == t.tagSize + t.size &&
                                Enc(x)[t.tagSize..] == b
            case Lst(xs) => t == Tag(List, HeadLen(EncAllLen(xs)), EncAllLen(xs)) &&
                            EncLen(x) == t.tagSize + t.size && Enc(x)[t.tagSize..] == EncAll(xs)
  {
    hide TagOf, BE, Header, EncAll, EncAllLen;
    var tail := w[EncLen(x)..];
    assert w == Enc(x) + tail;
    match x
    case Str(b) =>
      if SelfEncoded(b) {
        ByteTag(w);
      } else {
        assert w == HeadOf(String, |b|) + (b + tail);
        TagComplete(String, |b|, b + tail);
      }
    case Lst(xs) =>
      assert w == HeadOf(List, EncAllLen(xs)) + (EncAll(xs) + tail);
      TagComplete(List, EncAllLen(xs), EncAll(xs) + tail);
  }

  /** What the tag announces when the encoding of x is ahead: it fits, and the content follows. */
  lemma TagLeads(x: Item, w: seq<u8>, k: Kind, n: nat, taken: nat)
    requires EncLen(x) <= |w| && EncLen(x) < TWO64 && w[..EncLen(x)] == Enc(x)
    ensures TagOf(w).Ok? && (TagOf(w).value.kind != Byte ==> TagOf(w).value.tagSize + TagOf(w).value.size == EncLen(x))
    ensures Announces(TagOf(w).value, k, n, taken) && x.Lst? ==>
              k == List && n == EncAllLen(x.items) && taken + n == EncLen(x) && w[taken..taken + n] == EncAll(x.items)
    ensures Announces(TagOf(w).value, k, n, taken) && x.Str? && k != Byte ==>
              k == String && n == |x.bytes| && taken + n == EncLen(x) && w[taken..taken + n] == x.bytes &&
              !SelfEncoded(x.bytes)
  {
    hide TagOf, Enc, EncLen, EncAll, EncAllLen, BE, HeadLen;
    TagAhead(x, w);
    var t := TagOf(w).value;
    if t.kind != Byte {
      assert w[t.tagSize..t.tagSize + t.size] == w[..EncLen(x)][t.tagSize..];
    }
  }

  /** Two encodings at the same position belong to the same item. */
  lemma SameItem(data: seq<u8>, p: nat, x: Item, y: Item)
    requires EncLen(x) < TWO64 && EncLen(y) < TWO64 && p + EncLen(x) <= |data| && p + EncLen(y) <= |data|
    requires data[p..p + EncLen(x)] == Enc(x) && data[p..p + EncLen(y)] == Enc(y)
    ensures x == y
  {
    hide Enc, EncLen;
    assert data[p..] == Enc(x) + data[p + EncLen(x)..] == Enc(y) + data[p + EncLen(y)..];
    UniqueReading(x, data[p + EncLen(x)..], y, data[p + EncLen(y)..]);
  }

  /** What a decoder that succeeded has done to the stream: it read n bytes and nothing else. */
  twostate predicate Took(s: Stream, n: nat)
    reads s
  {
    && s.Valid() && s.kind.None? && s.pos == old(s.pos) + n
    && s.stack == Take(old(s.stack), n) && s.frames == old(s.frames)
    && s.limited == old(s.limited) && s.bound == old(s.bound)
  }

  /** The tag step of `decodeInterface`: with the encoding of `want` ahead, its tag is accepted and
      its content is ahead then. */
  method FetchTag(s: Stream, ghost want: Option<Item>) returns (k: Kind, err: Option<Error>)
    requires s.Valid() && s.kind.None?
    requires want.Some? ==> EncLen(want.value) < TWO64 && Ahead(s, Enc(want.value))
    modifies s
    ensures err == Some(EOL) <==> old(s.InList() && s.Top() == 0)
    ensures err == Some(EOL) ==> unchanged(s)
    ensures err.None? ==> s.Valid() && s.kind == Some(k) && s.tagAt == old(s.pos) < s.pos
    ensures err.None? ==> s.stack == Take(old(s.stack), s.pos - old(s.pos)) && s.frames == old(s.frames)
    ensures unchanged(s`limited, s`bound)
    ensures want.Some? ==> err.None?
    ensures want.Some? && want.value.Str? && k != Byte ==>
              k == String && s.size == |want.value.bytes| && Ahead(s, want.value.bytes) &&
              !SelfEncoded(want.value.bytes)
    ensures want.Some? && want.value.Lst? ==>
              k == List && s.size == EncAllLen(want.value.items) && Ahead(s, EncAll(want.value.items))
  {
    hide Stream.Valid, Stream.Budget, Stream.Window, Stream.Coming, TagOf, Take, Enc, EncLen, EncAll, EncAllLen,
         Announces, Accepts, Ahead;
    ghost var p, w := s.pos, s.Window();
    if want.Some? {
      InWindow(s, Enc(want.value));
      TagFits(s, want.value);
    }
    var n;
    k, n, err := s.KindAhead();
    if want.Some? { ContentAhead(s, want.value, p, w); }
  }

  lemma InWindow(s: Stream, e: seq<u8>)
    requires s.Valid() && Ahead(s, e)
    ensures |e| <= |s.Window()| && s.Window()[..|e|] == e && s.pos + |s.Window()| <= |s.data|
    ensures s.Window() == s.data[s.pos..s.pos + |s.Window()|] && |s.Window()| == s.Budget()
  {
    hide Stream.Valid;
  }

  /** The tag of an encoding that is ahead passes both checks. */
  lemma TagFits(s: Stream, x: Item)
    requires s.Valid() && EncLen(x) < TWO64 && EncLen(x) <= |s.Window()| && s.Window()[..EncLen(x)] == Enc(x)
    ensures TagOf(s.Window()).Ok? && Accepts(TagOf(s.Window()).value, s.limited, s.remaining, s.stack)
    ensures s.InList() ==> s.Top() > 0
  {
    hide Stream.Valid, TagOf, Enc, EncLen;
    TagLeads(x, s.Window(), Byte, 0, 0);
  }

  lemma ContentAhead(s: Stream, x: Item, p: nat, w: seq<u8>)
    requires s.Valid() && s.kind.Some? && p <= s.pos && EncLen(x) < TWO64
    requires p + |w| <= |s.data| && w == s.data[p..p + |w|] && s.Budget() == |w| - (s.pos - p)
    requires EncLen(x) <= |w| && w[..EncLen(x)] == Enc(x) && TagOf(w).Ok?
    requires Announces(TagOf(w).value, s.kind.value, s.size, s.pos - p)
    ensures x.Str? && s.kind.value != Byte ==>
              s.kind.value == String && s.size == |x.bytes| && Ahead(s, x.bytes) && !SelfEncoded(x.bytes)
    ensures x.Lst? ==> s.kind.value == List && s.size == EncAllLen(x.items) && Ahead(s, EncAll(x.items))
  {
    hide Stream.Valid, Stream.Budget, TagOf, Enc, EncLen, EncAll, EncAllLen, Announces;
    var k, n := s.kind.value, s.size;
    TagLeads(x, w, k, n, s.pos - p);
    if x.Lst? || k != Byte { SliceWithin(s.data, p, p + |w|, s.pos - p, s.pos - p + n); }
  }

  /** `decodeInterface`. It accepts only canonical encodings and returns what they encode, and it
      accepts the encoding of every item `want`. */
  method DecodeInterface(s: Stream, ghost want: Option<Item>) returns (r: Result<Item>)
    requires s.Valid() && s.kind.None?
    requires want.Some? ==> EncLen(want.value) < TWO64 && Ahead(s, Enc(want.value))
    modifies s
    ensures r == Err(EOL) <==> old(s.InList() && s.Top() == 0)
    ensures r == Err(EOL) ==> unchanged(s)
    ensures r.Ok? ==> EncLen(r.value) < TWO64 && Took(s, EncLen(r.value)) && s.data[old(s.pos)..s.pos] == Enc(r.value)
    ensures want.Some? ==> r == Ok(want.value)
    decreases |s.data| - s.pos, 2
  {
    hide Stream.Valid, Stream.Budget, Stream.Coming, IsString, Take, Enc, EncLen, EncAll, EncAllLen, BE, Ahead;
    ghost var p, st := s.pos, s.stack;
    s.Within();
    if want.Some? { AheadHere(s, Enc(want.value)); }
    var k, err := FetchTag(s, want);
    if err.Some? { return Err(err.value); }
    s.Within();
    ghost var q := s.pos;
    if k == List {
      r := DecodeListSlice(s, if want.Some? then Some(want.value.items) else None);
    } else {
      if want.Some? { BytesReady(s, want.value.bytes); }
      var b := s.Bytes();
      r := if b.Ok? then Ok(Str(b.value)) else Err(b.error);
    }
    if r.Ok? {
      s.Within();
      TakeTwice(st, q - p, s.pos - q);
      assert |s.data[p..s.pos]| == |Enc(r.value)| == EncLen(r.value);
      if want.Some? { SameItem(s.data, p, r.value, want.value); }
    }
  }

  lemma AheadHere(s: Stream, e: seq<u8>)
    requires s.Valid() && Ahead(s, e)
    ensures s.pos + |e| <= |s.data| && s.data[s.pos..s.pos + |e|] == e
  {
    hide Stream.Valid;
  }

  lemma BytesReady(s: Stream, b: seq<u8>)
    requires s.Valid() && s.kind.Some? && s.kind != Some(List)
    requires s.kind == Some(String) ==> s.size == |b| && Ahead(s, b) && !SelfEncoded(b)
    ensures s.Coming().Some? && IsString(s.Coming().value)
  {
    hide Stream.Valid, Stream.Budget;
    if s.kind == Some(String) && |b| == 1 { assert s.Window()[0] == s.data[s.pos] == s.data[s.pos..s.pos + 1][0]; }
  }

  lemma NoItems()
    ensures EncAllLen([]) == 0 && EncAll([]) == []
  {
  }

  lemma ListEnc(xs: seq<Item>)
    ensures EncLen(Lst(xs)) == HeadLen(EncAllLen(xs)) + EncAllLen(xs)
    ensures EncLen(Lst(xs)) < TWO64 ==> Enc(Lst(xs)) == LstHead(EncAllLen(xs)) + EncAll(xs)
    ensures EncAllLen(xs) < TWO64 ==> |LstHead(EncAllLen(xs))| == HeadLen(EncAllLen(xs))
  {}

  /** `decodeListSlice`, when the tag of the list has been read. */
  method DecodeListSlice(s: Stream, ghost want: Option<seq<Item>>) returns (r: Result<Item>)
    requires s.Valid() && s.kind == Some(List)
    requires want.Some? ==> s.size == EncAllLen(want.value) && Ahead(s, EncAll(want.value))
    modifies s
    ensures r != Err(EOL)
    ensures r.Ok? ==> EncLen(r.value) < TWO64 && Took(s, old(s.size)) && s.data[old(s.tagAt)..s.pos] == Enc(r.value)
    ensures want.Some? ==> r.Ok?
    decreases |s.data| - s.pos, 5
  {
    hide Balanced, Wrap, BE, Enc, EncLen, EncAll, EncAllLen, LstHead, Take;
    NoItems();
    ghost var p, at, st := s.pos, s.tagAt, s.stack;
    var size := s.List();
    var xs: seq<Item> := [];
    match size {
      case Err(e) => return Err(e);
      case Ok(n) =>
        if n != 0 {
          var elems := DecodeSliceElems(s, want);
          if elems.Err? { return Err(elems.error); }
          xs := elems.value;
        }
    }
    var end := s.ListEnd();
    match end {
      case Err(e) => return Err(e);
      case Ok(_) =>
    }
    TakeInner(Take(st, s.pos - p), s.pos - p, s.pos - p);
    SliceJoin(s.data, at, p, s.pos);
    ListEnc(xs);
    r := Ok(Lst(xs));
  }

  lemma FirstOf(ys: seq<Item>)
    requires ys != [] && EncAllLen(ys) < TWO64
    ensures EncAllLen(ys) == EncLen(ys[0]) + EncAllLen(ys[1..])
    ensures EncAll(ys)[..EncLen(ys[0])] == Enc(ys[0]) && EncAll(ys)[EncLen(ys[0])..] == EncAll(ys[1..])
  {}

  /** The encodings of ys are ahead and fill what is left of the innermost list. */
  ghost predicate Fills(s: Stream, ys: seq<Item>)
    requires s.Valid()
    reads s
  {
    s.InList() && s.Top() == EncAllLen(ys) && EncAllLen(ys) < TWO64 && Ahead(s, EncAll(ys))
  }

  /** One element of a list. */
  method DecodeElem(s: Stream, ghost rest: Option<seq<Item>>) returns (r: Result<Item>)
    requires s.Valid() && s.kind.None? && s.InList() && (rest.Some? ==> Fills(s, rest.value))
    modifies s
    ensures r == Err(EOL) <==> old(s.Top() == 0)
    ensures r == Err(EOL) ==> unchanged(s)
    ensures r.Ok? ==> EncLen(r.value) < TWO64 && Took(s, EncLen(r.value)) && s.data[old(s.pos)..s.pos] == Enc(r.value)
    ensures rest.Some? && rest.value != [] ==> r == Ok(rest.value[0]) && Fills(s, rest.value[1..])
    decreases |s.data| - s.pos, 3
  {
    hide Balanced, Wrap, Enc, EncLen, EncAll, EncAllLen;
    ghost var q, next := s.pos, None;
    if rest.Some? && rest.value != [] {
      FirstOf(rest.value);
      next := Some(rest.value[0]);
      SliceWithin(s.data, q, q + EncAllLen(rest.value), 0, EncLen(next.value));
    }
    r := DecodeInterface(s, next);
    if next.Some? {
      WrapSmall(EncAllLen(rest.value[1..]));
      SliceWithin(s.data, q, q + EncAllLen(rest.value), EncLen(next.value), EncAllLen(rest.value));
    }
  }

  /** `decodeSliceElems`: elements until the end of the list. */
  method DecodeSliceElems(s: Stream, ghost want: Option<seq<Item>>) returns (r: Result<seq<Item>>)
    requires s.Valid() && s.kind.None? && s.InList() && (want.Some? ==> Fills(s, want.value))
    modifies s
    ensures r != Err(EOL)
    ensures r.Ok? ==> EncAllLen(r.value) < TWO64 && Took(s, EncAllLen(r.value)) && s.InList() && s.Top() == 0
    ensures r.Ok? ==> s.data[old(s.pos)..s.pos] == EncAll(r.value)
    ensures want.Some? ==> r.Ok?
    decreases |s.data| - s.pos, 4
  {
    hide Balanced, Wrap, Take, BE, Enc, EncLen, EncAll, EncAllLen;
    ghost var p, st := s.pos, s.stack;
    var xs: seq<Item> := [];
    ghost var rest := want;
    TakeNone(st, s.frames, p);
    NoItems();
    while true
      invariant s.InList() && EncAllLen(xs) < TWO64 && Took(s, EncAllLen(xs)) && s.data[p..s.pos] == EncAll(xs)
      invariant rest.Some? == want.Some? && (rest.Some? ==> Fills(s, rest.value))
      decreases |s.data| - s.pos
    {
      ghost var q := s.pos;
      var x := DecodeElem(s, rest);
      if x == Err(EOL) { return Ok(xs); }
      if x.Err? { return Err(x.error); }
      EncAllAppend(xs, x.value);
      TakeTwice(st, q - p, s.pos - q);
      SliceJoin(s.data, p, q, s.pos);
      xs := xs + [x.value];
      if rest.Some? { rest := Some(rest.value[1..]); }
    }
  }

  /** `DecodeBytes` into an interface value accepts exactly the encodings, each into its item. */
  method DecodeBytes(b: seq<u8>) returns (r: Result<Item>)
    requires |b| < TWO63
    ensures r.Ok? ==> EncLen(r.value) < TWO64 && b == Enc(r.value)
    ensures forall x: Item :: EncLen(x) < TWO64 && b == Enc(x) ==> r == Ok(x)
  {
    hide Balanced, Wrap, BE, Enc, EncLen;
    var s := new Stream(b, Some(|b|));
    ghost var want := None;
    if x: Item :| EncLen(x) < TWO64 && Enc(x) == b {
      want := Some(x);
      assert b[0..|b|] == b;
    }
    r := DecodeInterface(s, want);
    if r.Ok? && s.pos < |b| {
      r := Err(MoreThanOneValue);
    }
    assert b[0..|b|] == b;
    forall x: Item | EncLen(x) < TWO64 && b == Enc(x) ensures r == Ok(x) {
      SameItem(b, 0, x, want.value);
    }
  }

  /** Encoding with the deferred-header buffer and decoding with the stream gives the tree back. */
  method RoundTrip(x: Item) returns (b: seq<u8>, r: Result<Item>)
    requires EncLen(x) < TWO63
    ensures b == Enc(x) && r == Ok(x)
  {
    b := RlpOutput.EncodeToBytes(x);
    r := DecodeBytes(b);
  }

  /** An integer of any size: only canonical encodings are accepted, and the encoding of every integer
      `want` is. */
  method DecodeInteger(s: Stream, ghost want: Option<nat>) returns (r: Result<nat>)
    requires s.Valid() && s.kind.None?
    requires want.Some? ==> EncLen(Str(BE(want.value))) < TWO64 && Ahead(s, Enc(Str(BE(want.value))))
    modifies s
    ensures r.Ok? ==> s.Valid() && EncLen(Str(BE(r.value))) < TWO64 && old(s.pos) <= s.pos
    ensures r.Ok? ==> s.data[old(s.pos)..s.pos] == Enc(Str(BE(r.value)))
    ensures want.Some? ==> r == Ok(want.value)
  {
    hide Stream.Valid, Stream.Budget, Take, Enc, EncLen, BE, Announces, TagOf, Ahead, IsBigInt;
    ghost var p := s.pos;
    ghost var item := if want.Some? then Some(Str(BE(want.value))) else None;
    if want.Some? { AheadHere(s, Enc(item.value)); }
    s.Within();
    var k, err := FetchTag(s, item);
    if err.Some? { return Err(err.value); }
    if want.Some? { IntegerAhead(s, want.value, p); }
    r := s.DecodeBigInt();
    if r.Ok? {
      s.Within();
      assert |s.data[p..s.pos]| == |Enc(Str(BE(r.value)))| == EncLen(Str(BE(r.value)));
      if want.Some? { SameInteger(s.data, p, r.value, want.value); }
    }
  }

  lemma IntegerAhead(s: Stream, n: nat, p: nat)
    requires s.Valid() && s.kind.Some? && s.tagAt == p < s.pos && EncLen(Str(BE(n))) < TWO64
    requires p + EncLen(Str(BE(n))) <= |s.data| && s.data[p..p + EncLen(Str(BE(n)))] == Enc(Str(BE(n)))
    requires s.kind.value != Byte ==>
               s.kind.value == String && s.size == |BE(n)| && Ahead(s, BE(n)) && !SelfEncoded(BE(n))
    ensures IsBigInt(s.Coming().value)
  {
    hide BE, Balanced;
    var b := BE(n);
    if s.kind.value == Byte {
      assert s.data[p] == s.data[p..s.pos][0] == s.byteval;
      assert s.data[p] == Enc(Str(b))[0];
      if !SelfEncoded(b) { HeadNotByte(|b|, b); }
    } else if |b| > 0 {
      assert s.data[s.pos] == s.data[s.pos..s.pos + |b|][0];
    }
  }

  lemma HeadNotByte(n: nat, b: seq<u8>)
    requires n < TWO64
    ensures (StrHead(n) + b)[0] >= 0x80
  {
    SizeOfSize(n);
  }

  lemma SameInteger(data: seq<u8>, p: nat, m: nat, n: nat)
    requires EncLen(Str(BE(m))) < TWO64 && EncLen(Str(BE(n))) < TWO64
    requires p + EncLen(Str(BE(m))) <= |data| && p + EncLen(Str(BE(n))) <= |data|
    requires data[p..p + EncLen(Str(BE(m)))] == Enc(Str(BE(m))) && data[p..p + EncLen(Str(BE(n)))] == Enc(Str(BE(n)))
    ensures m == n
  {
    hide Enc, EncLen, BE;
    SameItem(data, p, Str(BE(m)), Str(BE(n)));
    ValOfBE(m);
    ValOfBE(n);
  }

  /** Writing an integer word by word and decoding it gives the integer back. */
  method IntegerRoundTrip(words: seq<nat>) returns (r: Result<nat>)
    requires Words(words) && EncLen(Str(BE(BigVal(words)))) < TWO63
    ensures r == Ok(BigVal(words))
  {
    hide BE, Enc, EncLen, Words, BigVal;
    var b := RlpOutput.EncodeBigInt(words);
    var s := new Stream(b, Some(|b|));
    assert b[0..|b|] == b;
    r := DecodeInteger(s, Some(BigVal(words)));
  }

  // ---- What Raw and Uint accept ----

  /** With the encoding of an item ahead, what the stream knows of it spells it. */
  lemma ItemComing(s: Stream, x: Item)
    requires s.Valid() && s.kind.None? && EncLen(x) < TWO64 && Ahead(s, Enc(x))
    ensures s.Coming().Some? && IsWhole(s.Coming().value) && s.Coming().value.size < TWO64
    ensures Spelled(s.Coming().value) == Enc(x)
  {
    hide Stream.Valid, Stream.Budget, Stream.Window, TagOf, Enc, EncLen, Accepts, Spelled, HeadOf;
    InWindow(s, Enc(x));
    TagFits(s, x);
    LeadSpells(x, s.Window(), s.limited, s.remaining, s.stack);
  }

  lemma LeadSpells(x: Item, w: seq<u8>, limited: bool, remaining: nat, stack: seq<nat>)
    requires EncLen(x) <= |w| && EncLen(x) < TWO64 && w[..EncLen(x)] == Enc(x)
    requires TagOf(w).Ok? && Accepts(TagOf(w).value, limited, remaining, stack)
    ensures var l := LeadOf(w, limited, remaining, stack);
            l.Some? && l.value.size < TWO64 && IsWhole(l.value) && Spelled(l.value) == Enc(x)
  {
    hide TagOf, EncAll, EncAllLen, BE, Header, Accepts;
    TagAhead(x, w);
    TagSound(w);
    var t := TagOf(w).value;
    if t.kind == Byte {
      assert w[0] == w[..EncLen(x)][0] == Enc(x)[0];
      ByteOnly(x, w);
    } else {
      assert w[t.tagSize..][..t.size] == w[..EncLen(x)][t.tagSize..];
      assert Enc(x) == Enc(x)[..t.tagSize] + Enc(x)[t.tagSize..];
      assert Enc(x)[..t.tagSize] == w[..t.tagSize];
    }
  }

  lemma ByteOnly(x: Item, w: seq<u8>)
    requires EncLen(x) <= |w| && EncLen(x) < TWO64 && w[..EncLen(x)] == Enc(x)
    requires TagOf(w).Ok? && TagOf(w).value.kind == Byte
    ensures Enc(x) == [w[0]]
  {
    hide TagOf, EncAll, EncAllLen, BE, Header;
    TagAhead(x, w);
    assert x.Str? && SelfEncoded(x.bytes);
    assert w[0] == w[..EncLen(x)][0];
  }

  /** `Raw` returns the encoding of every item that is ahead, whether or not its kind was asked for
      before. */
  method RawItem(s: Stream, peek: bool, ghost x: Item) returns (r: Result<seq<u8>>)
    requires s.Valid() && s.kind.None? && EncLen(x) < TWO64 && Ahead(s, Enc(x))
    modifies s
    ensures r == Ok(Enc(x)) && s.Valid() && s.kind.None?
  {
    hide Stream.Valid, Stream.Budget, Stream.Coming, IsWhole, Spelled, Take, Enc, EncLen, Announces, TagOf, Ahead;
    ItemComing(s, x);
    if peek {
      var k, n, err := s.KindAhead();
    }
    r := s.Raw();
  }

  /** And `Uint` returns every integer of the width whose encoding is ahead. */
  method UintItem(s: Stream, peek: bool, maxbits: nat, ghost i: nat) returns (r: Result<nat>)
    requires s.Valid() && s.kind.None? && 8 <= maxbits <= 64 && i < Pow256(maxbits / 8)
    requires EncLen(Str(BE(i))) < TWO64 && Ahead(s, Enc(Str(BE(i))))
    modifies s
    ensures r == Ok(i) && s.Valid() && s.kind.None?
  {
    hide Stream.Valid, Stream.Budget, Stream.Coming, IsUint, Take, Enc, EncLen, BE, UintEnc,
         Announces, TagOf, Ahead, Pow256;
    ghost var p := s.pos;
    AheadHere(s, Enc(Str(BE(i))));
    UintComing(s, maxbits, i);
    if peek {
      var k, n, err := s.KindAhead();
    }
    r := s.Uint(maxbits);
    s.Within();
    UintSpelled(r.value);
    assert |s.data[p..s.pos]| == |Enc(Str(BE(r.value)))| == EncLen(Str(BE(r.value)));
    SameInteger(s.data, p, r.value, i);
  }

  lemma UintSpelled(i: nat)
    requires i < TWO64
    ensures EncLen(Str(BE(i))) < TWO64 && UintEnc(i) == Enc(Str(BE(i)))
  {
    SizeOfSize(i);
  }

  lemma UintComing(s: Stream, maxbits: nat, i: nat)
    requires s.Valid() && s.kind.None? && 8 <= maxbits <= 64 && i < Pow256(maxbits / 8)
    requires EncLen(Str(BE(i))) < TWO64 && Ahead(s, Enc(Str(BE(i))))
    ensures s.Coming().Some? && IsUint(s.Coming().value, maxbits)
  {
    hide Stream.Valid, Stream.Budget, Stream.Window, TagOf, Enc, EncLen, Accepts, IsUint, BE, Pow256;
    InWindow(s, Enc(Str(BE(i))));
    TagFits(s, Str(BE(i)));
    LeadCounts(s.Window(), maxbits, i, s.limited, s.remaining, s.stack);
  }

  lemma LeadCounts(w: seq<u8>, maxbits: nat, i: nat, limited: bool, remaining: nat, stack: seq<nat>)
    requires i < Pow256(maxbits / 8)
    requires var x := Str(BE(i)); EncLen(x) <= |w| && EncLen(x) < TWO64 && w[..EncLen(x)] == Enc(x)
    requires TagOf(w).Ok? && Accepts(TagOf(w).value, limited, remaining, stack)
    ensures var l := LeadOf(w, limited, remaining, stack);
            l.Some? && IsUint(l.value, maxbits)
  {
    hide TagOf, BE, Val, Header, Accepts, Pow256;
    var b := BE(i);
    var x := Str(b);
    TagAhead(x, w);
    BELength(i, maxbits / 8);
    ValOfBE(i);
    SingleVal(b);
    var t := TagOf(w).value;
    if t.kind == Byte {
      ByteOnly(x, w);
      assert b == [w[0]];
    } else {
      TagSound(w);
      assert w[t.tagSize..][..t.size] == w[..EncLen(x)][t.tagSize..] == b;
      SmallBytes(i);
      if |b| > 0 { assert w[t.tagSize..][0] == b[0]; }
    }
  }

  lemma SmallBytes(i: nat)
    ensures 0 < i < 128 ==> SelfEncoded(BE(i))
  {
    if 0 < i < 128 { assert BE(i) == BE(0) + [i]; }
  }
}

/** rlp/encbuffer.go and rlp/encode.go: the encoder buffer and what is written into it.  `RlpMerge`
    gives the meaning of the buffer. */
module RlpEncode {
  import opened Bytes
  import opened RlpSpec
  import opened RlpMerge
  import opened RlpBigInt

  /** The header of a list with n bytes of content. */
  function ListHeader(n: nat): (h: seq<u8>)
    ensures n < TWO63 ==> |h| == HeadLen(n)
  {
    if n < TWO64 then LstHead(n) else []
  }

  // ---- Integers ----

  /** The number of bytes `putint` chooses, case by case as in the source. */
  function PutIntSize(i: nat): (n: nat)
    requires i < TWO64
    ensures 1 <= n <= 8
  {
    if i < 0x100 then 1
    else if i < 0x1_0000 then 2
    else if i < 0x100_0000 then 3
    else if i < 0x1_0000_0000 then 4
    else if i < 0x100_0000_0000 then 5
    else if i < 0x1_0000_0000_0000 then 6
    else if i < 0x100_0000_0000_0000 then 7
    else 8
  }

  function PutIntBytes(i: nat): seq<u8>
    requires i < TWO64
  {
    Fixed(i, PutIntSize(i))
  }

  /** `putint` writes the least number of big-endian bytes; zero still takes one. */
  lemma PutIntCanonical(i: nat)
    requires i < TWO64
    ensures PutIntBytes(i) == if i == 0 then [0] else BE(i)
  {
    Pow256Table();
    FixedCanonical(i, PutIntSize(i));
  }

  method IntSize(n: nat) returns (size: nat)
    requires n < TWO64
    ensures size == if n == 0 then 1 else |BE(n)|
  {
    var i := n;
    size := 1;
    while true
      invariant size >= 1 && (n == 0 ==> i == 0 && size == 1)
      invariant n != 0 ==> i != 0 && |BE(n)| == size - 1 + |BE(i)|
      decreases i
    {
      i := i / 256;
      if i == 0 { return; }
      size := size + 1;
    }
  }

  /** The length of a header; `listEnd` and `headsize` both decide it this way. */
  method HeadSize(size: nat) returns (n: nat)
    requires size < TWO64
    ensures n == HeadLen(size)
  {
    if size < 56 { return 1; }
    n := IntSize(size);
    n := n + 1;
  }

  /** The three cases of `writeUint64` are the encoding of the integer's canonical bytes. */
  lemma UintEncoding(i: nat)
    requires i < TWO64
    ensures |BE(i)| <= 8 && EncLen(Str(BE(i))) <= 9
    ensures i == 0 ==> Enc(Str(BE(i))) == [0x80]
    ensures 0 < i < 128 ==> Enc(Str(BE(i))) == [i]
    ensures i >= 128 ==> PutIntBytes(i) == BE(i) && Enc(Str(BE(i))) == [0x80 + |BE(i)|] + BE(i)
  {
    SizeOfSize(i);
    PutIntCanonical(i);
    if 0 < i < 0x100 { assert PutIntBytes(i) == Fixed(0, 0) + [i]; }
    if i >= 0x100 { BELength(i, 1); Pow256Table(); }
  }

  /** `AppendUint64` of rlp/raw.go, which lists the sizes one by one. */
  function AppendUint64(b: seq<u8>, i: nat): seq<u8>
    requires i < TWO64
  {
    if i == 0 then b + [0x80]
    else if i < 128 then b + [i]
    else b + [0x80 + PutIntSize(i)] + PutIntBytes(i)
  }

  lemma AppendUint64Canonical(b: seq<u8>, i: nat)
    requires i < TWO64
    ensures EncLen(Str(BE(i))) < TWO64 && AppendUint64(b, i) == b + Enc(Str(BE(i)))
  {
    hide BE, Enc, EncLen, Fixed;
    UintEncoding(i);
    if i >= 128 {
      assert |PutIntBytes(i)| == PutIntSize(i);
      assert b + [0x80 + PutIntSize(i)] + BE(i) == b + ([0x80 + |BE(i)|] + BE(i));
    }
  }

  /** Copying into a byte buffer, as Go's `copy` does: as much as fits. */
  method CopyBytes(dst: array<u8>, at: nat, src: seq<u8>) returns (n: nat)
    requires at <= dst.Length
    modifies dst
    ensures n == if |src| <= dst.Length - at then |src| else dst.Length - at
    ensures dst[at..at + n] == src[..n]
    ensures dst[..at] == old(dst[..at]) && dst[at + n..] == old(dst[at + n..])
  {
    n := if |src| <= dst.Length - at then |src| else dst.Length - at;
    forall k | 0 <= k < n { dst[at + k] := src[k]; }
  }

  /** Writes a header at position `at`; it needs no more room than the header takes. */
  method PutHead(buf: array<u8>, at: nat, small: u8, large: u8, size: nat) returns (n: nat)
    requires small + 55 <= 255 && large + 8 <= 255 && size < TWO64
    requires at + HeadLen(size) <= buf.Length
    modifies buf
    ensures n == HeadLen(size)
    ensures buf[at..at + n] == Header(small, large, size)
    ensures buf[..at] == old(buf[..at]) && buf[at + n..] == old(buf[at + n..])
  {
    hide BE, PutIntBytes;
    if size < 56 {
      n := CopyBytes(buf, at, [small + size]);
    } else {
      SizeOfSize(size);
      PutIntCanonical(size);
      var s := PutIntBytes(size);
      n := CopyBytes(buf, at, [large + |s|] + s);
    }
  }

  /** One word is an integer of at most 64 bits; more are a string longer than one byte. */
  lemma BigShape(words: seq<nat>)
    requires Words(words)
    ensures |words| <= 1 ==> BigVal(words) == if words == [] then 0 else words[0]
    ensures forall i :: 0 <= i < |words| ==> words[i] < TWO64
    ensures |words| > 1 ==>
              |BE(BigVal(words))| == 8 * (|words| - 1) + |BE(words[|words| - 1])| && words[|words| - 1] > 0
    ensures |words| > 1 && EncLen(Str(BE(BigVal(words)))) < TWO63 ==>
              var b := BE(BigVal(words));
              |b| < TWO63 && EncLen(Str(b)) == HeadLen(|b|) + |b| && Enc(Str(b)) == StrHead(|b|) + b
    ensures |words| <= 1 ==> EncLen(Str(BE(BigVal(words)))) <= 9
  {
    hide BE, Words;
    if |words| > 1 {
      WordsWithin(words);
      BigLength(words);
    } else {
      WordsWithin(words);
      assert words == [] || words[1..] == [];
      UintEncoding(BigVal(words));
    }
  }

  lemma WordsWithin(words: seq<nat>)
    requires Words(words)
    ensures forall i :: 0 <= i < |words| ==> words[i] < TWO64
    ensures words != [] ==> words[|words| - 1] > 0
  {
  }

  class EncBuffer {
    var str: seq<u8>          // string data, everything except list headers
    var lheads: seq<ListHead> // all list headers
    var lhsize: nat           // sum of the sizes of all encoded list headers
    const sizebuf: array<u8>  // auxiliary buffer for header encoding
    ghost var open: seq<nat>  // the indices `list` has returned and `listEnd` has not seen
    ghost var written: seq<seq<u8>> // the bytes written into each open list, the outermost first

    ghost predicate Valid()
      reads this
    {
      && sizebuf.Length == 9
      && WellFormed(ListHeader, lheads, open, |str|)
      && lhsize == Finished(ListHeader, lheads, open)
      && written == Frames(ListHeader, str, lheads, open, |str|)
      && |str| + lhsize < TWO63
      && (forall i :: 0 <= i < |lheads| ==> lheads[i].size < TWO63)
    }

    /** The encoder output, once every list is closed. */
    ghost function Output(): seq<u8>
      requires Valid() && open == []
      reads this
      ensures written == [Output()] && |Output()| == |str| + lhsize
    {
      Merge(ListHeader, str, lheads, 0, |str|)
    }

    /** `size()` counts the bytes of all open lists together. */
    lemma SizeIsTotal()
      requires Valid()
      ensures |str| + lhsize == Total(written) && |written| == |open| + 1
    {
      FramesTotal(ListHeader, str, lheads, open, |str|);
    }

    constructor ()
      ensures Valid() && open == [] && Output() == [] && fresh(sizebuf)
    {
      str, lheads, lhsize, open, written := [], [], 0, [], [[]];
      sizebuf := new u8[9];
    }

    method Reset()
      requires sizebuf.Length == 9
      modifies this
      ensures Valid() && open == [] && Output() == []
    {
      str, lheads, lhsize, open, written := [], [], 0, [], [[]];
    }

    method Size() returns (n: nat)
      requires Valid()
      ensures open == [] ==> n == |Output()|
      ensures n == |str| + lhsize
    {
      n := |str| + lhsize;
    }

    /** `Write`: raw data goes to the innermost open list. */
    method Write(b: seq<u8>)
      requires Valid() && Total(written) + |b| < TWO63
      modifies this`str, this`written
      ensures Valid() && written == Appended(old(written), b)
    {
      SizeIsTotal();
      AppendStep(ListHeader, str, b, lheads, open);
      str := str + b;
      written := Appended(written, b);
    }

    method WriteUint64(i: nat)
      requires Valid() && i < TWO64 && Total(written) + EncLen(Str(BE(i))) < TWO63
      modifies this`str, this`written, sizebuf
      ensures Valid() && EncLen(Str(BE(i))) < TWO64 && written == Appended(old(written), Enc(Str(BE(i))))
    {
      hide BE, Enc, EncLen, PutIntBytes, WellFormed, Frames, Finished, Merge, Appended;
      UintEncoding(i);
      if i == 0 {
        Write([0x80]);
      } else if i < 128 {
        Write([i]);
      } else {
        var s := CopyBytes(sizebuf, 1, PutIntBytes(i));
        sizebuf[0] := 0x80 + s;
        assert sizebuf[1..s + 1] == BE(i);
        assert sizebuf[..s + 1] == [0x80 + s] + sizebuf[1..s + 1];
        Write(sizebuf[..s + 1]);
      }
    }

    method EncodeStringHeader(size: nat)
      requires Valid() && Total(written) + HeadLen(size) < TWO63 && size < TWO63
      modifies this`str, this`written, sizebuf
      ensures Valid() && written == Appended(old(written), StrHead(size))
    {
      if size < 56 {
        Write([0x80 + size]);
      } else {
        SizeOfSize(size);
        PutIntCanonical(size);
        var s := CopyBytes(sizebuf, 1, PutIntBytes(size));
        sizebuf[0] := 0xB7 + s;
        assert sizebuf[1..s + 1] == BE(size);
        assert sizebuf[..s + 1] == [sizebuf[0]] + sizebuf[1..s + 1] == StrHead(size);
        Write(sizebuf[..s + 1]);
      }
    }

    method WriteBytes(b: seq<u8>)
      requires Valid() && Total(written) + EncLen(Str(b)) < TWO63
      modifies this`str, this`written, sizebuf
      ensures Valid() && written == Appended(old(written), Enc(Str(b)))
    {
      if |b| == 1 && b[0] <= 0x7F {
        assert Enc(Str(b)) == [b[0]];
        Write([b[0]]);
      } else {
        AppendedTwice(written, StrHead(|b|), b);
        EncodeStringHeader(|b|);
        Write(b);
      }
    }

    /** An integer of any size from its words, the least first and the last not zero. */
    method WriteBigInt(words: seq<nat>)
      requires Valid() && Words(words) && Total(written) + EncLen(Str(BE(BigVal(words)))) < TWO63
      modifies this`str, this`written, sizebuf
      ensures Valid() && EncLen(Str(BE(BigVal(words)))) < TWO64
      ensures written == Appended(old(written), Enc(Str(BE(BigVal(words)))))
    {
      hide BE, Enc, EncLen, BigVal, Words, WellFormed, Frames, Finished, Merge, Appended;
      BigShape(words);
      if |words| <= 1 {
        WriteUint64(if words == [] then 0 else words[0]);
        return;
      }
      var top := IntSize(words[|words| - 1]);
      var length := 8 * (|words| - 1) + top;
      AppendedTwice(written, StrHead(length), BE(BigVal(words)));
      EncodeStringHeader(length);
      var b := BigBytes(words, length);
      Write(b);
    }

    method List() returns (index: nat)
      requires Valid()
      modifies this`lheads, this`open, this`written
      ensures Valid() && open == old(open) + [index]
      ensures written == old(written) + [[]]
    {
      OpenStep(ListHeader, str, lheads, open);
      index := |lheads|;
      open := open + [index];
      written := written + [[]];
      lheads := lheads + [ListHead(|str|, lhsize)];
    }

    method ListEnd(index: nat)
      requires Valid() && open != [] && index == open[|open| - 1]
      requires Total(written) + HeadLen(|Top(written)|) < TWO63
      modifies this`lheads, this`lhsize, this`open, this`written
      ensures Valid() && open == old(open[..|open| - 1])
      ensures lheads == old(lheads)[index := ListHead(old(lheads)[index].offset, |Top(old(written))|)]
      ensures lhsize == old(lhsize) + HeadLen(|Top(old(written))|)
      ensures |Top(old(written))| < TWO63
      ensures written == Closed(ListHeader, old(written))
    {
      hide BE, Ordered, Merge, HeadSum, WellFormed, Finished, Frames, ListHeader, Closed;
      SizeIsTotal();
      Innermost(ListHeader, str, lheads, open);
      var lh := lheads[index];
      var size := |str| + lhsize - lh.offset - lh.size;
      ghost var hs := lheads;
      lheads := lheads[index := ListHead(lh.offset, size)];
      assert lheads == hs[..index] + [ListHead(lh.offset, size)] + hs[index + 1..];
      CloseStep(ListHeader, str, hs, open, index, lheads);
      open := open[..|open| - 1];
      written := Closed(ListHeader, written);
      var n := HeadSize(size);
      lhsize := lhsize + n;
    }
  }

  // ---- Refinement of the recursive encoding ----

  /** A write: of a string, of an integer, of one of any size by its words, of a value that is already
      encoded; or the beginning or the end of a list. */
  datatype Op =
    | Put(b: seq<u8>)
    | PutUint(i: nat)
    | PutBigInt(words: seq<nat>)
    | PutRaw(e: seq<u8>, x: Item)
    | Open
    | Close

  /** The simple machine keeps the items written into each open list, the innermost on top. */
  datatype Stack = Empty | On(below: Stack, top: seq<Item>)

  ghost predicate Proper(op: Op) {
    match op
    case PutUint(i) => i < TWO64
    case PutBigInt(words) => Words(words)
    case PutRaw(e, x) => EncLen(x) < TWO64 && e == Enc(x)
    case _ => true
  }

  /** What is written. */
  ghost function ItemOf(op: Op): Item
    requires !op.Open? && !op.Close?
  {
    match op
    case Put(b) => Str(b)
    case PutUint(i) => Str(BE(i))
    case PutBigInt(words) => Str(BE(BigVal(words)))
    case PutRaw(_, x) => x
  }

  ghost function Step(op: Op, st: Stack): Stack
    requires st.On?
  {
    match op
    case Open => On(st, [])
    case Close => if st.below.Empty? then st else On(st.below.below, st.below.top + [Lst(st.top)])
    case _ => On(st.below, st.top + [ItemOf(op)])
  }

  ghost function Run(ops: seq<Op>): (st: Stack)
    ensures st.On?
  {
    if ops == [] then On(Empty, []) else Step(ops[|ops| - 1], Run(ops[..|ops| - 1]))
  }

  /** No list is closed that was not opened. */
  ghost predicate Nested(ops: seq<Op>)
  {
    ops == [] ||
    var op, before := ops[|ops| - 1], ops[..|ops| - 1];
    Nested(before) && Proper(op) && (op.Close? ==> Run(before).below.On?)
  }

  ghost function StackLen(st: Stack): nat
  {
    if st.Empty? then 0 else StackLen(st.below) + EncAllLen(st.top)
  }

  /** The bytes in every open list are the encoding of the items written there. */
  ghost predicate Encodes(fs: seq<seq<u8>>, st: Stack)
    decreases st
  {
    if st.Empty? then fs == []
    else fs != [] && EncAllLen(st.top) < TWO64 && Top(fs) == EncAll(st.top) && Encodes(Below(fs), st.below)
  }

  lemma {:induction false} EncodesTotal(fs: seq<seq<u8>>, st: Stack)
    requires Encodes(fs, st)
    ensures Total(fs) == StackLen(st)
    decreases st
  {
    if st.On? { EncodesTotal(Below(fs), st.below); }
  }

  /** How many bytes one operation adds. */
  ghost function Growth(op: Op, st: Stack): nat
    requires st.On?
  {
    match op
    case Open => 0
    case Close => HeadLen(EncAllLen(st.top))
    case _ => EncLen(ItemOf(op))
  }

  lemma StepLen(op: Op, st: Stack)
    requires st.On? && (op.Close? ==> st.below.On?)
    ensures StackLen(Step(op, st)) == StackLen(st) + Growth(op, st)
  {
    match op
    case Open =>
    case Close => EncAllAppendLen(st.below.top, Lst(st.top));
    case _ => EncAllAppendLen(st.top, ItemOf(op));
  }

  lemma {:induction false} RunGrows(ops: seq<Op>, i: nat)
    requires Nested(ops) && i <= |ops|
    ensures Nested(ops[..i]) && StackLen(Run(ops[..i])) <= StackLen(Run(ops))
    decreases |ops|
  {
    if i == |ops| {
      assert ops[..i] == ops;
    } else {
      var init := ops[..|ops| - 1];
      RunGrows(init, i);
      assert init[..i] == ops[..i];
      StepLen(ops[|ops| - 1], Run(init));
    }
  }

  lemma EncodesPut(fs: seq<seq<u8>>, st: Stack, op: Op)
    requires st.On? && Encodes(fs, st) && !op.Open? && !op.Close? && StackLen(st) + EncLen(ItemOf(op)) < TWO63
    ensures Encodes(Appended(fs, Enc(ItemOf(op))), Step(op, st))
  {
    hide BE, Enc, EncLen, ItemOf;
    EncAllAppend(st.top, ItemOf(op));
    assert Below(Appended(fs, Enc(ItemOf(op)))) == Below(fs);
  }

  lemma EncodesOpen(fs: seq<seq<u8>>, st: Stack)
    requires st.On? && Encodes(fs, st)
    ensures Encodes(fs + [[]], Step(Open, st))
  {
    assert Below(fs + [[]]) == fs;
  }

  lemma EncodesClose(fs: seq<seq<u8>>, st: Stack)
    requires st.On? && st.below.On? && Encodes(fs, st) && StackLen(Step(Close, st)) < TWO63
    ensures |fs| >= 2 && Encodes(Closed(ListHeader, fs), Step(Close, st))
  {
    assert Encodes(Below(fs), st.below);
    var outer, x := st.below.top, Lst(st.top);
    EncAllAppendLen(outer, x);
    EncAllAppend(outer, x);
    assert Enc(x) == ListHeader(|Top(fs)|) + Top(fs);
    hide BE, EncAll, EncAllLen, Enc, EncLen;
    assert Top(Below(fs)) + ListHeader(|Top(fs)|) + Top(fs) == Top(Below(fs)) + Enc(x);
    assert Below(Closed(ListHeader, fs)) == Below(Below(fs));
  }

  /** The writes that put something into the innermost list. */
  method WriteOne(buf: EncBuffer, op: Op)
    requires buf.Valid() && !op.Open? && !op.Close? && Proper(op)
    requires Total(buf.written) + EncLen(ItemOf(op)) < TWO63
    modifies buf`str, buf`written, buf.sizebuf
    ensures buf.Valid() && buf.written == Appended(old(buf.written), Enc(ItemOf(op)))
  {
    hide EncBuffer.Valid, BE, Enc, EncLen, BigVal, Words, Appended;
    match op
    case Put(b) => buf.WriteBytes(b);
    case PutUint(i) => buf.WriteUint64(i);
    case PutBigInt(words) => buf.WriteBigInt(words);
    case PutRaw(e, x) =>
      buf.Write(e);
  }

  /** One write on the buffer is one step of the simple machine. */
  method WriteOp(buf: EncBuffer, op: Op, held: seq<nat>, ghost st: Stack) returns (held': seq<nat>)
    requires buf.Valid() && buf.open == held && st.On? && Encodes(buf.written, st)
    requires Proper(op) && (op.Close? ==> st.below.On?) && StackLen(Step(op, st)) < TWO63
    modifies buf, buf.sizebuf
    ensures buf.Valid() && buf.open == held' && Encodes(buf.written, Step(op, st))
  {
    hide EncBuffer.Valid, Proper, ItemOf, BE, Enc, EncLen, EncAll, EncAllLen;
    ghost var w := buf.written;
    buf.SizeIsTotal();
    EncodesTotal(w, st);
    StepLen(op, st);
    held' := held;
    match op
    case Open =>
      EncodesOpen(w, st);
      var index := buf.List();
      held' := held + [index];
    case Close =>
      EncodesClose(w, st);
      buf.ListEnd(held[|held| - 1]);
      held' := held[..|held| - 1];
    case _ =>
      EncodesPut(w, st, op);
      WriteOne(buf, op);
  }

  /** For every properly nested sequence of writes the buffer holds, in each open list, exactly the
      recursive encoding of the items written there; with every list closed, the output is the
      encoding of what was written at top level. */
  method WriteOps(buf: EncBuffer, ops: seq<Op>)
    requires buf.sizebuf.Length == 9
    requires Nested(ops) && StackLen(Run(ops)) < TWO63
    modifies buf, buf.sizebuf
    ensures buf.Valid() && Encodes(buf.written, Run(ops))
    ensures buf.open == [] <==> Run(ops).below.Empty?
    ensures buf.open == [] ==> EncAllLen(Run(ops).top) < TWO64 && buf.Output() == EncAll(Run(ops).top)
  {
    hide WellFormed, Frames, Finished, Merge, BE, Step, EncAll;
    buf.Reset();
    var held: seq<nat> := [];
    EncodesNothing();
    for i := 0 to |ops|
      invariant buf.Valid() && buf.open == held
      invariant Encodes(buf.written, Run(ops[..i]))
    {
      assert ops[..i + 1][..i] == ops[..i];
      RunGrows(ops, i + 1);
      held := WriteOp(buf, ops[i], held, Run(ops[..i]));
    }
    assert ops[..|ops|] == ops;
    buf.SizeIsTotal();
  }

  lemma EncodesNothing()
    ensures Encodes([[]], On(Empty, []))
  {
    assert Below([[]]) == [];
  }

  /** The slice writer of rlp/encode.go, applied to a tree: nested lists go through `list` and
      `listEnd`, an empty one is a single byte. */
  method WriteItem(buf: EncBuffer, x: Item)
    requires buf.Valid() && Total(buf.written) + EncLen(x) < TWO63
    modifies buf, buf.sizebuf
    ensures buf.Valid() && buf.open == old(buf.open)
    ensures buf.written == Appended(old(buf.written), Enc(x))
    decreases x, 1
  {
    if x.Str? {
      buf.WriteBytes(x.bytes);
    } else if |x.items| == 0 {
      assert Enc(x) == [0xC0];
      buf.Write([0xC0]);
    } else {
      WriteList(buf, x.items);
    }
  }

  /** Opening a list, writing its items and closing it appends the encoding of the list. */
  lemma ClosedList(w: seq<seq<u8>>, xs: seq<Item>)
    requires w != [] && EncLen(Lst(xs)) < TWO63
    ensures var w' := Appended(w + [[]], EncAll(xs));
            && |Top(w')| == EncAllLen(xs) && Total(w') == Total(w) + EncAllLen(xs)
            && |w'| >= 2 && Closed(ListHeader, w') == Appended(w, Enc(Lst(xs)))
  {
    hide BE, EncAll;
    var w' := Appended(w + [[]], EncAll(xs));
    assert Below(w + [[]]) == w && [] + EncAll(xs) == EncAll(xs);
    assert Below(w') == w && Top(w') == EncAll(xs);
    assert Top(w) + ListHeader(EncAllLen(xs)) + EncAll(xs) == Top(w) + Enc(Lst(xs));
  }

  method WriteList(buf: EncBuffer, xs: seq<Item>)
    requires buf.Valid() && Total(buf.written) + EncLen(Lst(xs)) < TWO63
    modifies buf, buf.sizebuf
    ensures buf.Valid() && buf.open == old(buf.open)
    ensures buf.written == Appended(old(buf.written), Enc(Lst(xs)))
    decreases xs, 1
  {
    hide WellFormed, Frames, Finished, Merge, Ordered, HeadSum, BE, Header, EncAll, EncAllLen;
    ghost var w := buf.written;
    var index := buf.List();
    WriteItems(buf, xs);
    ClosedList(w, xs);
    buf.ListEnd(index);
  }

  method WriteItems(buf: EncBuffer, xs: seq<Item>)
    requires buf.Valid() && Total(buf.written) + EncAllLen(xs) < TWO63
    modifies buf, buf.sizebuf
    ensures buf.Valid() && buf.open == old(buf.open)
    ensures buf.written == Appended(old(buf.written), EncAll(xs))
    decreases xs, 0
  {
    hide WellFormed, Frames, Finished, BE;
    ghost var w := buf.written;
    ghost var held := buf.open;
    AppendedNone(w);
    for i := 0 to |xs|
      invariant buf.Valid() && buf.open == held
      invariant EncAllLen(xs[..i]) < TWO64 && buf.written == Appended(w, EncAll(xs[..i]))
    {
      EncAllPrefix(xs, i);
      EncAllAppend(xs[..i], xs[i]);
      assert xs[..i + 1] == xs[..i] + [xs[i]];
      AppendedTwice(w, EncAll(xs[..i]), Enc(xs[i]));
      WriteItem(buf, xs[i]);
    }
    assert xs[..|xs|] == xs;
  }
}

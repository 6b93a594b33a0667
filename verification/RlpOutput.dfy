/** rlp/encbuffer.go, the three ways the encoder output leaves the buffer: `copyTo`, `writeTo` and
    the `encReader` that hands it out in whatever pieces the caller asks for. */
module RlpOutput {
  import opened Bytes
  import opened RlpSpec
  import opened RlpMerge
  import opened RlpEncode
  import opened RlpBigInt

  /** What is still to come when `strpos` bytes of string data and `lhpos` headers are out. */
  ghost function Rest(buf: EncBuffer, lhpos: nat, strpos: nat): seq<u8>
    requires lhpos <= |buf.lheads| && Ordered(buf.lheads[lhpos..], strpos, |buf.str|)
    reads buf
  {
    Merge(ListHeader, buf.str, buf.lheads[lhpos..], strpos, |buf.str|)
  }

  ghost predicate At(buf: EncBuffer, lhpos: nat, strpos: nat)
    reads buf
  {
    lhpos <= |buf.lheads| && Ordered(buf.lheads[lhpos..], strpos, |buf.str|)
  }

  /** Passing one header, with the string data before it. */
  lemma PassHeader(buf: EncBuffer, lhpos: nat, strpos: nat)
    requires At(buf, lhpos, strpos) && lhpos < |buf.lheads|
    ensures var h := buf.lheads[lhpos];
            && strpos <= h.offset <= |buf.str|
            && At(buf, lhpos, h.offset) && At(buf, lhpos + 1, h.offset)
            && Rest(buf, lhpos, strpos) == buf.str[strpos..h.offset] + Rest(buf, lhpos, h.offset)
            && Rest(buf, lhpos, h.offset) == ListHeader(h.size) + Rest(buf, lhpos + 1, h.offset)
  {
    var hs := buf.lheads[lhpos..];
    OrderedRange(hs, strpos, |buf.str|);
    assert hs[1..] == buf.lheads[lhpos + 1..];
  }

  lemma PassTail(buf: EncBuffer, strpos: nat)
    requires At(buf, |buf.lheads|, strpos)
    ensures strpos <= |buf.str| && Rest(buf, |buf.lheads|, strpos) == buf.str[strpos..]
  {}

  /** `out` is what dst[base..] is to become; dst[base..pos] is done and `piece` comes next. */
  method EmitBytes(dst: array<u8>, base: nat, pos: nat, piece: seq<u8>, ghost rest: seq<u8>, ghost out: seq<u8>)
    returns (pos': nat)
    requires base <= pos <= dst.Length && base + |out| == dst.Length
    requires dst[base..pos] + (piece + rest) == out
    modifies dst
    ensures pos' == pos + |piece| && base <= pos' <= dst.Length
    ensures dst[base..pos'] + rest == out && dst[..base] == old(dst[..base])
  {
    assert pos - base + |piece| + |rest| == |out|;
    var done := dst[base..pos];
    var n := CopyBytes(dst, pos, piece);
    pos' := pos + n;
    assert dst[base..pos] == dst[..pos][base..];
    assert dst[base..pos'] == dst[base..pos] + dst[pos..pos'] == done + piece;
    assert dst[..base] == dst[..pos][..base];
  }

  /** The header is written without checking the room that is left; it always suffices. */
  method EmitHead(dst: array<u8>, base: nat, pos: nat, size: nat, ghost rest: seq<u8>, ghost out: seq<u8>)
    returns (pos': nat)
    requires base <= pos <= dst.Length && base + |out| == dst.Length && size < TWO63
    requires dst[base..pos] + (LstHead(size) + rest) == out
    modifies dst
    ensures pos' == pos + HeadLen(size) && base <= pos' <= dst.Length
    ensures dst[base..pos'] + rest == out && dst[..base] == old(dst[..base])
  {
    assert pos - base + HeadLen(size) + |rest| == |out|;
    var done := dst[base..pos];
    var n := PutHead(dst, pos, 0xC0, 0xF7, size);
    pos' := pos + n;
    assert dst[base..pos] == dst[..pos][base..];
    assert dst[base..pos'] == dst[base..pos] + dst[pos..pos'] == done + LstHead(size);
    assert dst[..base] == dst[..pos][..base];
  }

  /** `copyTo`, into the part of dst from `base` on, which is as long as the output. */
  method CopyTo(buf: EncBuffer, dst: array<u8>, base: nat)
    requires buf.Valid() && buf.open == [] && dst != buf.sizebuf
    requires base + |buf.Output()| == dst.Length
    modifies dst
    ensures dst[base..] == buf.Output() && dst[..base] == old(dst[..base])
  {
    var strpos: nat, pos: nat := 0, base;
    ghost var out := buf.Output();
    assert buf.lheads[0..] == buf.lheads;
    assert out == Rest(buf, 0, 0) && dst[base..base] + out == out;
    hide WellFormed, Finished, Frames, Merge, Ordered;
    for i := 0 to |buf.lheads|
      invariant At(buf, i, strpos) && base <= pos <= dst.Length
      invariant dst[..base] == old(dst[..base])
      invariant dst[base..pos] + Rest(buf, i, strpos) == out
    {
      PassHeader(buf, i, strpos);
      var head := buf.lheads[i];
      pos := EmitBytes(dst, base, pos, buf.str[strpos..head.offset], Rest(buf, i, head.offset), out);
      strpos := head.offset;
      pos := EmitHead(dst, base, pos, head.size, Rest(buf, i + 1, strpos), out);
    }
    PassTail(buf, strpos);
    assert buf.str[strpos..] + [] == buf.str[strpos..];
    pos := EmitBytes(dst, base, pos, buf.str[strpos..], [], out);
  }

  method MakeBytes(buf: EncBuffer) returns (dst: array<u8>)
    requires buf.Valid() && buf.open == []
    ensures fresh(dst) && dst[..] == buf.Output()
  {
    var n := buf.Size();
    dst := new u8[n];
    CopyTo(buf, dst, 0);
    assert dst[..] == dst[0..];
  }

  /** `EncodeToBytes` of a tree. */
  method EncodeToBytes(x: Item) returns (out: seq<u8>)
    requires EncLen(x) < TWO63
    ensures out == Enc(x)
  {
    hide WellFormed, Finished, Frames, Merge, Ordered, BE, Enc;
    var buf := new EncBuffer();
    assert Below(buf.written) == [] && Top(buf.written) == [];
    assert Total(buf.written) == 0;
    WriteItem(buf, x);
    assert [] + Enc(x) == Enc(x) && [] + [Enc(x)] == [Enc(x)];
    var dst := MakeBytes(buf);
    out := dst[..];
  }

  /** `EncodeToBytes` of an integer of any size. */
  method EncodeBigInt(words: seq<nat>) returns (out: seq<u8>)
    requires Words(words) && EncLen(Str(BE(BigVal(words)))) < TWO63
    ensures out == Enc(Str(BE(BigVal(words))))
  {
    hide WellFormed, Finished, Frames, Merge, Ordered, BE, Enc, EncLen, BigVal, Words;
    var buf := new EncBuffer();
    assert Below(buf.written) == [] && Top(buf.written) == [];
    assert Total(buf.written) == 0;
    buf.WriteBigInt(words);
    ghost var e := Enc(Str(BE(BigVal(words))));
    assert [] + e == e && [] + [e] == [e];
    var dst := MakeBytes(buf);
    out := dst[..];
  }

  /** `listhead.encode` into the nine bytes of `sizebuf`. */
  method EncodeHead(sizebuf: array<u8>, size: nat) returns (k: nat)
    requires sizebuf.Length == 9 && size < TWO63
    modifies sizebuf
    ensures 1 <= k <= 9 && sizebuf[..k] == LstHead(size)
  {
    SizeOfSize(size);
    k := PutHead(sizebuf, 0, 0xC0, 0xF7, size);
    assert sizebuf[..k] == sizebuf[0..k];
  }

  /** A destination that takes `room` more bytes and then fails, possibly in the middle of a write. */
  class Writer {
    var out: seq<u8>
    var room: nat

    method Write(b: seq<u8>) returns (ok: bool)
      modifies this
      ensures ok <==> |b| <= old(room)
      ensures var n := if ok then |b| else old(room);
              out == old(out) + b[..n] && room == old(room) - n
    {
      ok := |b| <= room;
      var n := if ok then |b| else room;
      out, room := out + b[..n], room - n;
    }
  }

  /** `out` is what the writer is to receive after `start`; `done` is through, `piece` is next. */
  method EmitTo(w: Writer, piece: seq<u8>, ghost start: seq<u8>, ghost room: nat,
                ghost done: seq<u8>, ghost rest: seq<u8>, ghost out: seq<u8>) returns (ok: bool)
    requires done + (piece + rest) == out
    requires |done| <= room && w.out == start + done && w.room == room - |done|
    modifies w
    ensures ok ==> (done + piece) + rest == out && |done + piece| <= room
    ensures ok ==> w.out == start + (done + piece) && w.room == room - |done + piece|
    ensures !ok ==> room < |out| && w.out == start + out[..room]
  {
    ok := w.Write(piece);
    assert (done + piece) + rest == out;
    assert start + done + piece == start + (done + piece);
    if !ok {
      var k := room - |done|;
      assert out[..room] == done + piece[..k];
    }
  }

  /** Sends the string data before one header, if there is any, and the header. */
  method EmitHeader(buf: EncBuffer, w: Writer, i: nat, strpos: nat, ghost start: seq<u8>, ghost room: nat,
                    ghost done: seq<u8>, ghost out: seq<u8>) returns (ok: bool, ghost done': seq<u8>)
    requires buf.sizebuf.Length == 9 && At(buf, i, strpos) && i < |buf.lheads| && buf.lheads[i].size < TWO63
    requires done + Rest(buf, i, strpos) == out
    requires |done| <= room && w.out == start + done && w.room == room - |done|
    modifies w, buf.sizebuf
    ensures var at := buf.lheads[i].offset; At(buf, i + 1, at) && (ok ==> done' + Rest(buf, i + 1, at) == out)
    ensures ok ==> |done'| <= room && w.out == start + done' && w.room == room - |done'|
    ensures !ok ==> room < |out| && w.out == start + out[..room]
  {
    PassHeader(buf, i, strpos);
    hide Merge, Ordered, BE, HeadSum, Rest;
    var head := buf.lheads[i];
    done' := done;
    if head.offset - strpos > 0 {
      ok := EmitTo(w, buf.str[strpos..head.offset], start, room, done, Rest(buf, i, head.offset), out);
      if !ok { return; }
      done' := done + buf.str[strpos..head.offset];
    } else {
      assert buf.str[strpos..head.offset] + Rest(buf, i, head.offset) == Rest(buf, i, head.offset);
    }
    var k := EncodeHead(buf.sizebuf, head.size);
    ok := EmitTo(w, buf.sizebuf[..k], start, room, done', Rest(buf, i + 1, head.offset), out);
    done' := done' + LstHead(head.size);
  }

  /** `writeTo` emits the same bytes, and stops with a prefix of them when the writer fails. */
  method WriteTo(buf: EncBuffer, w: Writer) returns (ok: bool)
    requires buf.Valid() && buf.open == []
    modifies w, buf.sizebuf
    ensures ok <==> |buf.Output()| <= old(w.room)
    ensures ok ==> w.out == old(w.out) + buf.Output()
    ensures !ok ==> w.out == old(w.out) + buf.Output()[..old(w.room)]
  {
    var strpos: nat := 0;
    ghost var start, room, out, done := w.out, w.room, buf.Output(), [];
    assert buf.lheads[0..] == buf.lheads;
    assert [] + Rest(buf, 0, 0) == out;
    hide WellFormed, Finished, Frames, Merge, Ordered, BE, HeadSum, Rest;
    for i := 0 to |buf.lheads|
      invariant At(buf, i, strpos) && done + Rest(buf, i, strpos) == out
      invariant |done| <= room && w.out == start + done && w.room == room - |done|
    {
      ok, done := EmitHeader(buf, w, i, strpos, start, room, done, out);
      if !ok { return; }
      strpos := buf.lheads[i].offset;
    }
    PassTail(buf, strpos);
    ok := true;
    if strpos < |buf.str| {
      assert buf.str[strpos..] + [] == buf.str[strpos..];
      ok := EmitTo(w, buf.str[strpos..], start, room, done, [], out);
    }
  }

  /** A piece to be read: a slice of the string data or, for headers, of the shared `sizebuf`. */
  datatype Piece = NoPiece | OfStr(lo: nat, hi: nat) | OfSizebuf(lo: nat, hi: nat)

  ghost predicate InRange(buf: EncBuffer, p: Piece)
    reads buf
  {
    match p
    case NoPiece => true
    case OfStr(lo, hi) => lo < hi <= |buf.str|
    case OfSizebuf(lo, hi) => lo < hi <= buf.sizebuf.Length
  }

  /** The bytes a piece refers to at this moment. */
  ghost function Content(buf: EncBuffer, p: Piece): (b: seq<u8>)
    requires InRange(buf, p)
    reads buf, buf.sizebuf
    ensures b == [] <==> p == NoPiece
  {
    match p
    case NoPiece => []
    case OfStr(lo, hi) => buf.str[lo..hi]
    case OfSizebuf(lo, hi) => buf.sizebuf[lo..hi]
  }

  lemma Cut(a: seq<u8>, b: seq<u8>, k: nat)
    requires k <= |b|
    ensures a + b[..k] + b[k..] == a + b
  {}

  lemma Parts(a: seq<u8>, b: seq<u8>)
    ensures (a + b)[..|a|] == a && (a + b)[|a|..] == b
  {}

  class EncReader {
    const buf: EncBuffer // the buffer that is read
    var released: bool   // the source forgets the buffer at EOF
    var lhpos: nat       // index of the list header that is read next
    var strpos: nat      // current position in the string data
    var piece: Piece     // what the last call has not handed out

    ghost predicate Valid()
      reads this, buf
    {
      !released ==> buf.Valid() && buf.open == [] && At(buf, lhpos, strpos) && InRange(buf, piece)
    }

    /** Everything later reads will return. */
    ghost function Unread(): seq<u8>
      requires Valid()
      reads this, buf, buf.sizebuf
    {
      if released then [] else Content(buf, piece) + Rest(buf, lhpos, strpos)
    }

    constructor (b: EncBuffer)
      requires b.Valid() && b.open == []
      ensures Valid() && buf == b && Unread() == b.Output()
    {
      buf, released, lhpos, strpos, piece := b, false, 0, 0, NoPiece;
      new;
      assert b.lheads[0..] == b.lheads;
      assert [] + b.Output() == b.Output();
    }

    /** Returns the piece to hand out next; `NoPiece` at EOF. A header is encoded into `sizebuf`,
        which destroys the previous header there: that one has been handed out completely. */
    method Next() returns (p: Piece)
      requires Valid()
      modifies this`lhpos, this`strpos, buf.sizebuf
      ensures released ==> p == NoPiece
      ensures p == NoPiece ==> old(Unread()) == []
      ensures !released ==> buf.Valid() && At(buf, lhpos, strpos) && InRange(buf, p)
      ensures !released ==> Content(buf, p) + Rest(buf, lhpos, strpos) == old(Unread())
    {
      if released {
        return NoPiece;
      } else if piece != NoPiece {
        return piece;
      }
      hide WellFormed, Finished, Frames, Merge, Ordered, BE;
      assert [] + Rest(buf, lhpos, strpos) == Rest(buf, lhpos, strpos);
      if lhpos < |buf.lheads| {
        PassHeader(buf, lhpos, strpos);
        var head := buf.lheads[lhpos];
        var sizebefore := head.offset - strpos;
        if sizebefore > 0 {
          p := OfStr(strpos, head.offset);
          strpos := strpos + sizebefore;
          return;
        }
        lhpos := lhpos + 1;
        var k := EncodeHead(buf.sizebuf, head.size);
        assert buf.sizebuf[0..k] == buf.sizebuf[..k];
        return OfSizebuf(0, k);
      }
      PassTail(buf, strpos);
      if strpos < |buf.str| {
        p := OfStr(strpos, |buf.str|);
        strpos := |buf.str|;
        PassTail(buf, strpos);
      } else {
        p := NoPiece;
      }
    }

    /** Copies as much of the current piece as fits behind the first n bytes of b. */
    method HandOut(b: array<u8>, n: nat) returns (nn: nat)
      requires Valid() && !released && piece != NoPiece && b != buf.sizebuf && n <= b.Length
      modifies this`piece, b
      ensures Valid() && n + nn <= b.Length && nn <= |old(Unread())|
      ensures b[..n + nn] == old(b[..n]) + old(Unread())[..nn] && Unread() == old(Unread())[nn..]
      ensures piece == NoPiece ==> nn > 0
      ensures piece != NoPiece ==> n + nn == b.Length && nn < |old(Unread())|
    {
      hide WellFormed, Finished, Frames, Merge, Ordered, BE;
      var lo, hi := piece.lo, piece.hi;
      ghost var content, rest, done := Content(buf, piece), Rest(buf, lhpos, strpos), b[..n];
      nn := CopyBytes(b, n, if piece.OfStr? then buf.str[lo..hi] else buf.sizebuf[lo..hi]);
      assert b[..n + nn] == b[..n] + b[n..n + nn] == done + content[..nn];
      assert (content + rest)[..nn] == content[..nn] && (content + rest)[nn..] == content[nn..] + rest;
      if nn < hi - lo {
        piece := if piece.OfStr? then OfStr(lo + nn, hi) else OfSizebuf(lo + nn, hi);
        assert Content(buf, piece) == content[nn..];
      } else {
        piece := NoPiece;
      }
    }

    /** One round of the loop in `Read`: fetch the piece and hand out what fits. */
    method ReadPiece(b: array<u8>, n: nat) returns (nn: nat, stop: bool, eof: bool)
      requires Valid() && b != buf.sizebuf && n <= b.Length
      modifies this, buf.sizebuf, b
      ensures Valid() && n + nn <= b.Length && nn <= |old(Unread())|
      ensures b[..n + nn] == old(b[..n]) + old(Unread())[..nn] && Unread() == old(Unread())[nn..]
      ensures eof ==> stop && released && old(Unread()) == []
      ensures stop && !eof ==> n + nn == b.Length && nn < |old(Unread())|
      ensures !stop ==> nn > 0
    {
      hide WellFormed, Finished, Frames, Merge, Ordered, BE, EncBuffer.Valid, Rest, Content;
      piece := Next();
      if piece == NoPiece {
        released := true;
        return 0, true, true;
      }
      nn := HandOut(b, n);
      stop, eof := piece != NoPiece, false;
    }

    /** Fills b as far as there is output; `eof` when nothing is left after it. */
    method Read(b: array<u8>) returns (n: nat, eof: bool)
      requires Valid() && b != buf.sizebuf
      modifies this, buf.sizebuf, b
      ensures Valid() && (eof <==> |old(Unread())| <= b.Length) && (eof ==> released)
      ensures n == if eof then |old(Unread())| else b.Length
      ensures b[..n] == old(Unread())[..n] && Unread() == old(Unread())[n..]
    {
      hide EncReader.Valid, EncReader.Unread, EncBuffer.Valid, Rest, Content, At, InRange;
      n := 0;
      ghost var all := Unread();
      assert b[..0] + all == all;
      while true
        invariant Valid() && n <= b.Length && b[..n] + Unread() == all
        decreases |Unread()|
      {
        ghost var u, done := Unread(), b[..n];
        var nn, stop, end := ReadPiece(b, n);
        Cut(done, u, nn);
        n := n + nn;
        if stop {
          Parts(b[..n], Unread());
          return n, end;
        }
      }
    }
  }

  /** A caller that reads with buffers of any sizes gets the output in order, nothing lost or
      repeated, and once EOF is reported it has all of it. */
  method ReadChunks(r: EncReader, sizes: seq<nat>) returns (out: seq<u8>, eof: bool)
    requires r.Valid()
    modifies r, r.buf.sizebuf
    ensures r.Valid() && out + r.Unread() == old(r.Unread())
    ensures eof ==> out == old(r.Unread())
  {
    hide WellFormed, Finished, Frames, Merge, Ordered, BE, EncBuffer.Valid, EncReader.Unread, Rest, Content;
    ghost var all := r.Unread();
    out, eof := [], false;
    assert [] + all == all;
    for i := 0 to |sizes|
      invariant r.Valid() && out + r.Unread() == all && (eof ==> r.Unread() == [])
    {
      var b := new u8[sizes[i]];
      ghost var u := r.Unread();
      var n: nat;
      n, eof := r.Read(b);
      Cut(out, u, n);
      out := out + b[..n];
    }
  }
}

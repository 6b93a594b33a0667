/** The frames that relay nodes exchange over TCP: eth/pioplat_server.go.  The checksum is any function
    from bytes to 32-bit numbers. */
module Frames {
  import opened Bytes

  const TWO32 := 0x1_0000_0000
  const TWO24 := 0x100_0000

  type u32 = x: nat | x < TWO32

  type Checksum = seq<u8> -> u32

  const HEADER_SIZE := 40
  const LENGTH_SIZE := 4
  const HASH_SIZE := 32
  const CRC32_SIZE := 4

  datatype Msg = Msg(kind: u8, hash: seq<u8>, payload: seq<u8>)

  /** A 32-bit number in four bytes, the least first. */
  function Le32(v: u32): (b: seq<u8>)
    ensures |b| == 4 && U32(b) == v
  {
    Decimal(v);
    [v % 256, v / 256 % 256, v / 0x1_0000 % 256, v / 0x100_0000]
  }

  function U32(b: seq<u8>): (v: u32)
    requires |b| == 4
  {
    b[0] as int + 256 * b[1] as int + 0x1_0000 * b[2] as int + 0x100_0000 * b[3] as int
  }

  lemma Decimal(v: u32)
    ensures v == v % 256 + 256 * (v / 256 % 256) + 0x1_0000 * (v / 0x1_0000 % 256) + 0x100_0000 * (v / 0x100_0000)
    ensures v / 0x100_0000 < 256
  {
    assert v / 0x1_0000 == v / 256 / 256 && v / 0x100_0000 == v / 256 / 256 / 256;
  }

  /** The length field counts the payload and its checksum in 32 bits; the type then takes the place
      of its highest byte. */
  function Head(m: Msg): (h: seq<u8>)
    ensures |h| == LENGTH_SIZE + |m.hash|
  {
    Le32((|m.payload| + CRC32_SIZE) % TWO32)[3 := m.kind] + m.hash
  }

  function Frame(crc: Checksum, m: Msg): (f: seq<u8>)
    ensures |f| == LENGTH_SIZE + |m.hash| + CRC32_SIZE + |m.payload| + CRC32_SIZE
  {
    Head(m) + Le32(crc(Head(m))) + m.payload + Le32(crc(m.payload))
  }

  /** What the reader makes of its input, one frame at a time. */
  datatype Outcome =
    | Got(msg: Msg, rest: seq<u8>)
    | BadPayload(rest: seq<u8>)
    | BadHeader(rest: seq<u8>)
    | End
    | Crash

  function Length(header: seq<u8>): u32
    requires |header| == HEADER_SIZE
  {
    U32(header[..LENGTH_SIZE][3 := 0])
  }

  function ReadFrame(crc: Checksum, s: seq<u8>): (o: Outcome)
    ensures (o.Got? || o.BadPayload? || o.BadHeader?) ==> |o.rest| + HEADER_SIZE <= |s|
  {
    if |s| < HEADER_SIZE then End
    else
      var header, rest := s[..HEADER_SIZE], s[HEADER_SIZE..];
      var sum := U32(header[LENGTH_SIZE + HASH_SIZE..]);
      if crc(header[..LENGTH_SIZE + HASH_SIZE]) != sum then BadHeader(rest)
      else if |rest| < Length(header) then End
      else ReadBody(crc, header, rest)
  }

  /** The slice for the payload is out of range when the length does not even cover the checksum. */
  function ReadBody(crc: Checksum, header: seq<u8>, rest: seq<u8>): Outcome
    requires |header| == HEADER_SIZE && |rest| >= Length(header)
  {
    var n := Length(header);
    if n < CRC32_SIZE then Crash
    else
      var payload := rest[..n - CRC32_SIZE];
      if crc(payload) != U32(rest[n - CRC32_SIZE..n]) then BadPayload(rest[n..])
      else Got(Msg(header[3], header[LENGTH_SIZE..LENGTH_SIZE + HASH_SIZE], payload), rest[n..])
  }

  /** A header is refused exactly when its checksum differs, whatever follows, and reading goes on right
      behind it. */
  lemma HeaderRefused(crc: Checksum, s: seq<u8>)
    ensures ReadFrame(crc, s).BadHeader? <==> |s| >= 40 && crc(s[..36]) != U32(s[36..40])
    ensures ReadFrame(crc, s).BadHeader? ==> ReadFrame(crc, s).rest == s[40..]
  {
    hide U32, Length;
    if |s| >= 40 {
      assert s[..HEADER_SIZE][..LENGTH_SIZE + HASH_SIZE] == s[..36];
      assert s[..HEADER_SIZE][LENGTH_SIZE + HASH_SIZE..] == s[36..40];
    }
  }

  lemma LengthField(len: seq<u8>, kind: u8, tail: seq<u8>)
    requires |len| == LENGTH_SIZE
    ensures (len[3 := kind] + tail)[..LENGTH_SIZE][3 := 0] == len[3 := 0]
  {
    assert (len[3 := kind] + tail)[..LENGTH_SIZE] == len[3 := kind];
  }

  lemma LowPart(n: nat)
    ensures n % TWO32 % TWO24 == n % TWO24
  {
  }

  lemma LengthOf(crc: Checksum, m: Msg)
    requires |m.hash| == HASH_SIZE
    ensures Length(Head(m) + Le32(crc(Head(m)))) == (|m.payload| + CRC32_SIZE) % TWO24
  {
    hide Le32, U32;
    var len := (|m.payload| + CRC32_SIZE) % TWO32;
    LengthField(Le32(len), m.kind, m.hash + Le32(crc(Head(m))));
    assert Head(m) + Le32(crc(Head(m))) == Le32(len)[3 := m.kind] + (m.hash + Le32(crc(Head(m))));
    LowBytes(len);
    LowPart(|m.payload| + CRC32_SIZE);
  }

  lemma LowBytes(v: u32)
    ensures U32(Le32(v)[3 := 0]) == v % TWO24
  {
    Decimal(v);
  }

  /** The header of a frame comes apart into what it was made of. */
  lemma HeaderApart(crc: Checksum, m: Msg)
    requires |m.hash| == HASH_SIZE
    ensures var h := Head(m) + Le32(crc(Head(m)));
            h[..LENGTH_SIZE + HASH_SIZE] == Head(m) && U32(h[LENGTH_SIZE + HASH_SIZE..]) == crc(Head(m)) &&
            h[3] == m.kind && h[LENGTH_SIZE..LENGTH_SIZE + HASH_SIZE] == m.hash
  {
    hide Le32, U32;
    var sum := Le32(crc(Head(m)));
    var h := Head(m) + sum;
    assert h[..LENGTH_SIZE + HASH_SIZE] == Head(m) && h[LENGTH_SIZE + HASH_SIZE..] == sum;
    assert h[LENGTH_SIZE..LENGTH_SIZE + HASH_SIZE] == m.hash;
  }

  /** One frame is read back as its message, up to its last byte, if and only if the payload with its
      checksum is shorter than 2 to the 24. */
  lemma FrameReadBack(crc: Checksum, m: Msg, rest: seq<u8>)
    requires |m.hash| == HASH_SIZE
    ensures ReadFrame(crc, Frame(crc, m) + rest) == Got(m, rest) <==> |m.payload| + CRC32_SIZE < TWO24
  {
    hide Le32, U32, Length, Head;
    var sum := Le32(crc(Head(m)));
    var h, body := Head(m) + sum, m.payload + Le32(crc(m.payload)) + rest;
    var s := Frame(crc, m) + rest;
    assert s[..HEADER_SIZE] == h && s[HEADER_SIZE..] == body;
    LengthOf(crc, m);
    HeaderApart(crc, m);
    var n := |m.payload| + CRC32_SIZE;
    if n < TWO24 {
      assert n % TWO24 == n;
      assert body[..n - CRC32_SIZE] == m.payload && body[n..] == rest;
      assert body[n - CRC32_SIZE..n] == Le32(crc(m.payload));
    } else {
      assert Length(h) < n && |body| == n + |rest|;
    }
  }

  /** The reader goes out of range on a frame exactly when the length field, cut to three bytes, does
      not even cover the checksum. */
  lemma FrameCrashes(crc: Checksum, m: Msg, rest: seq<u8>)
    requires |m.hash| == HASH_SIZE
    ensures ReadFrame(crc, Frame(crc, m) + rest) == Crash <==> (|m.payload| + CRC32_SIZE) % TWO24 < CRC32_SIZE
  {
    hide Le32, U32, Length, Head;
    var h, body := Head(m) + Le32(crc(Head(m))), m.payload + Le32(crc(m.payload)) + rest;
    var s := Frame(crc, m) + rest;
    assert s[..HEADER_SIZE] == h && s[HEADER_SIZE..] == body;
    LengthOf(crc, m);
    HeaderApart(crc, m);
  }

  /** A payload that arrives damaged costs its own frame and no other. */
  lemma DamageContained(crc: Checksum, m: Msg, body: seq<u8>, rest: seq<u8>)
    requires |m.hash| == HASH_SIZE && |m.payload| + CRC32_SIZE < TWO24 && |body| == |m.payload| + CRC32_SIZE
    requires crc(body[..|m.payload|]) != U32(body[|m.payload|..])
    ensures ReadFrame(crc, Head(m) + Le32(crc(Head(m))) + body + rest) == BadPayload(rest)
  {
    hide Le32, U32, Length, Head;
    var h := Head(m) + Le32(crc(Head(m)));
    var s := h + body + rest;
    assert s[..HEADER_SIZE] == h && s[HEADER_SIZE..] == body + rest;
    LengthOf(crc, m);
    HeaderApart(crc, m);
    var n := |body|;
    assert n % TWO24 == n;
    assert (body + rest)[..n - CRC32_SIZE] == body[..|m.payload|];
    assert (body + rest)[n - CRC32_SIZE..n] == body[|m.payload|..] && (body + rest)[n..] == rest;
  }

  /** Copy bytes into a buffer at a position. */
  method Put(a: array<u8>, at: nat, bytes: seq<u8>)
    requires at + |bytes| <= a.Length
    modifies a
    ensures a[..] == old(a[..at]) + bytes + old(a[at + |bytes|..])
  {
    forall i | 0 <= i < |bytes| { a[at + i] := bytes[i]; }
  }

  /** Build the frame of a message in one buffer, field by field. */
  method NewMsg(crc: Checksum, m: Msg) returns (message: array<u8>)
    requires |m.hash| == HASH_SIZE
    ensures fresh(message) && message[..] == Frame(crc, m)
  {
    hide Le32;
    var n := |m.payload|;
    message := new u8[HEADER_SIZE + n + CRC32_SIZE](_ => 0);
    Put(message, 0, Le32((n + CRC32_SIZE) % TWO32));
    message[3] := m.kind;
    Put(message, LENGTH_SIZE, m.hash);
    assert message[..LENGTH_SIZE + HASH_SIZE] == Head(m);
    var checksum := crc(message[..LENGTH_SIZE + HASH_SIZE]);
    Put(message, LENGTH_SIZE + HASH_SIZE, Le32(checksum));
    assert message[..HEADER_SIZE] == Head(m) + Le32(checksum);
    Put(message, HEADER_SIZE, m.payload);
    assert message[..HEADER_SIZE + n] == Head(m) + Le32(checksum) + m.payload;
    Put(message, HEADER_SIZE + n, Le32(crc(m.payload)));
  }

  /** Read into the front of the buffer, which is larger than what is read. */
  method ReadFull(buf: array<u8>, s: seq<u8>, n: nat)
    requires n <= |s| && n <= buf.Length
    modifies buf
    ensures buf[..n] == s[..n]
  {
    forall i | 0 <= i < n { buf[i] := s[i]; }
  }

  /** One turn of the reader; the buffer is used for the header, then for the payload, and replaced by
      a larger one when the payload does not fit. */
  method ReadOne(crc: Checksum, recvBuf: array<u8>, s: seq<u8>) returns (recvBuf': array<u8>, o: Outcome)
    requires recvBuf.Length >= HEADER_SIZE
    modifies recvBuf
    ensures o == ReadFrame(crc, s)
    ensures recvBuf'.Length >= HEADER_SIZE && (recvBuf' == recvBuf || fresh(recvBuf'))
  {
    hide U32;
    recvBuf' := recvBuf;
    if |s| < HEADER_SIZE { return recvBuf, End; }
    ReadFull(recvBuf, s, HEADER_SIZE);
    ghost var header := s[..HEADER_SIZE];
    var rest := s[HEADER_SIZE..];
    assert recvBuf[..LENGTH_SIZE + HASH_SIZE] == header[..LENGTH_SIZE + HASH_SIZE];
    assert recvBuf[LENGTH_SIZE + HASH_SIZE..HEADER_SIZE] == header[LENGTH_SIZE + HASH_SIZE..];
    if crc(recvBuf[..LENGTH_SIZE + HASH_SIZE]) != U32(recvBuf[LENGTH_SIZE + HASH_SIZE..HEADER_SIZE]) {
      return recvBuf, BadHeader(rest);
    }
    var kind := recvBuf[3];
    recvBuf[3] := 0;
    assert recvBuf[..LENGTH_SIZE] == header[..LENGTH_SIZE][3 := 0];
    var totalLength := U32(recvBuf[..LENGTH_SIZE]);
    var hash := recvBuf[LENGTH_SIZE..LENGTH_SIZE + HASH_SIZE];
    assert hash == header[LENGTH_SIZE..LENGTH_SIZE + HASH_SIZE] && kind == header[3];
    if totalLength > recvBuf.Length {
      recvBuf' := new u8[totalLength + 1](_ => 0);
    }
    if |rest| < totalLength { return recvBuf', End; }
    o := ReadPayload(crc, recvBuf', rest, totalLength, kind, hash);
  }

  method ReadPayload(crc: Checksum, recvBuf: array<u8>, rest: seq<u8>, n: nat, kind: u8, hash: seq<u8>)
    returns (o: Outcome)
    requires n <= |rest| && n <= recvBuf.Length
    modifies recvBuf
    ensures o == if n < CRC32_SIZE then Crash
                 else if crc(rest[..n - CRC32_SIZE]) != U32(rest[n - CRC32_SIZE..n]) then BadPayload(rest[n..])
                 else Got(Msg(kind, hash, rest[..n - CRC32_SIZE]), rest[n..])
  {
    hide U32;
    ReadFull(recvBuf, rest, n);
    if n < CRC32_SIZE { return Crash; }
    assert recvBuf[..n - CRC32_SIZE] == rest[..n - CRC32_SIZE];
    assert recvBuf[n - CRC32_SIZE..n] == rest[n - CRC32_SIZE..n];
    var checksum := crc(recvBuf[..n - CRC32_SIZE]);
    if checksum != U32(recvBuf[n - CRC32_SIZE..n]) { return BadPayload(rest[n..]); }
    o := Got(Msg(kind, hash, recvBuf[..n - CRC32_SIZE]), rest[n..]);
  }

  /** The messages in a byte stream, and whether the reader gets through it without losing its place. */
  ghost function Messages(crc: Checksum, s: seq<u8>): seq<Msg>
    decreases |s|
  {
    match ReadFrame(crc, s)
    case Got(m, rest) => [m] + Messages(crc, rest)
    case BadPayload(rest) => Messages(crc, rest)
    case _ => []
  }

  ghost predicate Steady(crc: Checksum, s: seq<u8>)
    decreases |s|
  {
    match ReadFrame(crc, s)
    case Got(_, rest) => Steady(crc, rest)
    case BadPayload(rest) => Steady(crc, rest)
    case BadHeader(_) => false
    case End => true
    case Crash => false
  }

  /** The reader goes out of range before it meets a bad header. */
  ghost predicate Crashes(crc: Checksum, s: seq<u8>)
    decreases |s|
  {
    match ReadFrame(crc, s)
    case Got(_, rest) => Crashes(crc, rest)
    case BadPayload(rest) => Crashes(crc, rest)
    case BadHeader(_) => false
    case End => false
    case Crash => true
  }

  /** The reader's loop.  After a bad header it drops an unknown part of what comes next; what came
      before is delivered all the same. */
  method Parse(crc: Checksum, input: seq<u8>) returns (msgs: seq<Msg>, crashed: bool)
    ensures Messages(crc, input) <= msgs
    ensures Steady(crc, input) ==> msgs == Messages(crc, input) && !crashed
    ensures Crashes(crc, input) ==> msgs == Messages(crc, input) && crashed
  {
    hide ReadFrame;
    ghost var lost := false;
    var recvBuf := new u8[0x2_0000](_ => 0);
    var rest := input;
    msgs, crashed := [], false;
    while true
      invariant recvBuf.Length >= HEADER_SIZE && fresh(recvBuf)
      invariant !lost ==> Steady(crc, input) == Steady(crc, rest) && Crashes(crc, input) == Crashes(crc, rest)
      invariant !lost ==> msgs + Messages(crc, rest) == Messages(crc, input)
      invariant lost ==> Messages(crc, input) <= msgs && !Steady(crc, input) && !Crashes(crc, input)
      decreases |rest|
    {
      var o;
      recvBuf, o := ReadOne(crc, recvBuf, rest);
      match o
      case Got(m, rest') => msgs, rest := msgs + [m], rest';
      case BadPayload(rest') => rest := rest';
      case BadHeader(rest') =>
        var buffered: nat, drained: nat :| buffered + drained <= |rest'|;
        lost, rest := true, rest'[..buffered] + rest'[buffered + drained..];
      case End => break;
      case Crash => return msgs, true;
    }
  }

  function Stream(crc: Checksum, ms: seq<Msg>): seq<u8> {
    if ms == [] then [] else Frame(crc, ms[0]) + Stream(crc, ms[1..])
  }

  ghost predicate Fits(m: Msg) {
    |m.hash| == HASH_SIZE && |m.payload| + CRC32_SIZE < TWO24
  }

  /** Every sequence of messages that fit is read back exactly, whatever the checksum function. */
  lemma {:induction false} StreamReadBack(crc: Checksum, ms: seq<Msg>)
    requires forall i :: 0 <= i < |ms| ==> Fits(ms[i])
    ensures Steady(crc, Stream(crc, ms)) && Messages(crc, Stream(crc, ms)) == ms
    decreases |ms|
  {
    hide ReadFrame, Frame;
    if ms == [] {
      NothingToRead(crc);
    } else {
      FrameReadBack(crc, ms[0], Stream(crc, ms[1..]));
      StreamReadBack(crc, ms[1..]);
    }
  }

  /** A damaged payload anywhere in a stream costs that message and no other. */
  lemma {:induction false} DamageSkipped(crc: Checksum, before: seq<Msg>, m: Msg, body: seq<u8>, after: seq<Msg>)
    requires Fits(m) && |body| == |m.payload| + CRC32_SIZE && crc(body[..|m.payload|]) != U32(body[|m.payload|..])
    requires (forall i :: 0 <= i < |before| ==> Fits(before[i])) && forall i :: 0 <= i < |after| ==> Fits(after[i])
    ensures var s := Stream(crc, before) + (Head(m) + Le32(crc(Head(m))) + body + Stream(crc, after));
            Steady(crc, s) && Messages(crc, s) == before + after
    decreases |before|
  {
    hide ReadFrame, Frame, Head, Le32, U32;
    var damaged := Head(m) + Le32(crc(Head(m))) + body + Stream(crc, after);
    var s := Stream(crc, before) + damaged;
    if before == [] {
      DamageContained(crc, m, body, Stream(crc, after));
      StreamReadBack(crc, after);
      assert s == damaged && before + after == after;
    } else {
      var rest := Stream(crc, before[1..]) + damaged;
      assert s == Frame(crc, before[0]) + rest;
      FrameReadBack(crc, before[0], rest);
      DamageSkipped(crc, before[1..], m, body, after);
      assert before + after == [before[0]] + (before[1..] + after);
    }
  }

  lemma NothingToRead(crc: Checksum)
    ensures ReadFrame(crc, []) == End
  {
  }

  /** Send and receive: what one side builds, the other recovers. */
  method Relay(crc: Checksum, ms: seq<Msg>) returns (received: seq<Msg>)
    requires forall i :: 0 <= i < |ms| ==> Fits(ms[i])
    ensures received == ms
  {
    hide Frame, Steady, Messages;
    var wire := [];
    for i := 0 to |ms|
      invariant wire + Stream(crc, ms[i..]) == Stream(crc, ms)
    {
      var message := NewMsg(crc, ms[i]);
      wire := wire + message[..];
      assert ms[i..][1..] == ms[i + 1..];
    }
    assert ms[|ms|..] == [] && wire == Stream(crc, ms);
    StreamReadBack(crc, ms);
    var crashed;
    received, crashed := Parse(crc, wire);
  }
}

/** rlp/decode.go: the streaming decoder. A `Stream` caches the tag of the value ahead, keeps a
    stack with the number of bytes left in each open list, and optionally a limit on the whole
    input. The stack is in uint64 and may wrap: `Kind` compares the size of a value with the bytes
    that were left before its tag was read, so `List` can subtract more than there is. */
module RlpStream {
  import opened Options
  import opened Bytes
  import opened RlpSpec
  import opened RlpRaw

  /** uint64 arithmetic. */
  function Wrap(n: int): (w: nat)
    ensures w < TWO64
  {
    n % TWO64
  }

  lemma WrapMinus(a: int, b: int)
    ensures Wrap(Wrap(a) - b) == Wrap(a - b)
  {
    var q := a / TWO64;
    assert a == q * TWO64 + Wrap(a);
    assert (Wrap(a) - b) % TWO64 == (Wrap(a) - b + q * TWO64) % TWO64;
  }

  lemma WrapSmall(n: nat)
    requires n < TWO64
    ensures Wrap(n) == n
  {}

  /** Two numbers below 2^64 with equal residues are equal. */
  lemma WrapZero(a: nat, b: nat)
    requires a < TWO64 && b < TWO64 && Wrap(a - b) == 0
    ensures a == b
  {}

  /** Taking n bytes off the innermost list. */
  function Take(stack: seq<nat>, n: nat): (r: seq<nat>)
    ensures |r| == |stack|
  {
    if stack == [] then [] else stack[|stack| - 1 := Wrap(stack[|stack| - 1] - n)]
  }

  /** Taking from the innermost list leaves the enclosing ones alone. */
  lemma TakeInner(stack: seq<nat>, x: nat, n: nat)
    ensures Take(stack + [x], n)[..|stack|] == stack
  {
  }

  lemma TakeTwice(stack: seq<nat>, a: nat, b: nat)
    ensures Take(Take(stack, a), b) == Take(stack, a + b)
  {
    if stack != [] { WrapMinus(stack[|stack| - 1] - a, b); }
  }

  /** An open list: where its content begins and the size its header declared. */
  datatype Frame = Frame(start: nat, declared: nat)

  /** The modular invariant of the stack: each entry is, modulo 2^64, what its list declared less
      what has been taken from it. A list that contains another open list has already been charged
      for all of that one. */
  ghost predicate Balanced(stack: seq<nat>, frames: seq<Frame>, end: nat)
  {
    if stack == [] || frames == [] then stack == [] && frames == []
    else
      var i, f := |stack| - 1, frames[|frames| - 1];
      && f.declared < TWO64 && f.start <= end
      && stack[i] == Wrap(f.declared - (end - f.start))
      && Balanced(stack[..i], frames[..|frames| - 1], f.start + f.declared)
  }

  lemma BalancedTake(stack: seq<nat>, frames: seq<Frame>, end: nat, n: nat)
    requires Balanced(stack, frames, end)
    ensures Balanced(Take(stack, n), frames, end + n)
  {
    if stack != [] {
      var f := frames[|frames| - 1];
      WrapMinus(f.declared - (end - f.start), n);
      assert Take(stack, n)[..|stack| - 1] == stack[..|stack| - 1];
    }
  }

  lemma TakeNone(stack: seq<nat>, frames: seq<Frame>, end: nat)
    requires Balanced(stack, frames, end)
    ensures Take(stack, 0) == stack
  {}

  /** Opening a list charges the enclosing one for all of its content. */
  lemma BalancedPush(stack: seq<nat>, frames: seq<Frame>, end: nat, size: nat)
    requires Balanced(stack, frames, end) && size < TWO64
    ensures Balanced(Take(stack, size) + [size], frames + [Frame(end, size)], end)
  {
    BalancedTake(stack, frames, end, size);
    var st := Take(stack, size) + [size];
    assert st[..|st| - 1] == Take(stack, size);
    assert (frames + [Frame(end, size)])[..|frames|] == frames;
  }

  /** What a stream knows of a value whose tag it accepts: its kind and size, the byte itself if it is
      one, and what may be read after the tag. */
  datatype Lead = Lead(kind: Kind, size: nat, first: u8, rest: seq<u8>)

  ghost function LeadOf(w: seq<u8>, limited: bool, remaining: nat, stack: seq<nat>): Option<Lead> {
    match TagOf(w)
    case Err(_) => None
    case Ok(t) =>
      TagSound(w);
      if !Accepts(t, limited, remaining, stack) then None
      else if t.kind == Byte then Some(Lead(Byte, 0, w[0], w[1..]))
      else Some(Lead(t.kind, t.size, 0, w[t.tagSize..]))
  }

  /** A string in canonical form. */
  ghost predicate IsString(l: Lead) {
    l.kind == Byte || (l.kind == String && l.size <= |l.rest| && !(l.size == 1 && l.rest[0] < 128))
  }

  /** A value of any kind that is all there. */
  ghost predicate IsWhole(l: Lead) {
    l.kind == Byte || l.size <= |l.rest|
  }

  /** The bytes of that value, tag included. */
  ghost function Spelled(l: Lead): seq<u8>
    requires IsWhole(l) && l.size < TWO64
  {
    if l.kind == Byte then [l.first] else HeadOf(l.kind, l.size) + l.rest[..l.size]
  }

  /** An integer of at most that many bits in canonical form. */
  ghost predicate IsUint(l: Lead, maxbits: nat) {
    match l.kind
    case Byte => l.first != 0
    case String => l.size <= maxbits / 8 && l.size <= |l.rest| && (l.size > 1 ==> l.rest[0] != 0) &&
                   (l.size > 0 ==> Val(l.rest[..l.size]) >= 128)
    case List => false
  }

  /** An integer of any size in canonical form. */
  ghost predicate IsBigInt(l: Lead) {
    match l.kind
    case Byte => l.first != 0
    case String => l.size <= |l.rest| && (l.size > 0 ==> l.rest[0] != 0) && !(l.size == 1 && l.rest[0] < 128)
    case List => false
  }

  /** The errors of a read beyond what may be read. */
  ghost predicate OutOfReach(e: Error) {
    e == ElemTooLarge || e == ValueTooLarge || e == UnexpectedEOF
  }

  /** The limit that n bytes exceed, that of the list before that of the input, or else the end of the
      input. */
  ghost function Refused(stack: seq<nat>, limited: bool, remaining: nat, n: nat): Error {
    if stack != [] && n > stack[|stack| - 1] then ElemTooLarge
    else if limited && n > remaining then ValueTooLarge
    else UnexpectedEOF
  }

  lemma RefusedBehind(stack: seq<nat>, limited: bool, remaining: nat, k: nat, n: nat)
    requires stack != [] ==> k <= stack[|stack| - 1] < TWO64
    requires limited ==> k <= remaining
    ensures Refused(Take(stack, k), limited, if limited then remaining - k else remaining, n) ==
            Refused(stack, limited, remaining, k + n)
    ensures !limited ==> forall r :: Refused(Take(stack, k), limited, r, n) == Refused(stack, limited, remaining, k + n)
  {
    if stack != [] { WrapSmall(stack[|stack| - 1] - k); }
  }

  lemma RefusedOutside(limited: bool, remaining: nat, n: nat)
    ensures Refused([], limited, remaining, n) in {UnexpectedEOF, ValueTooLarge}
  {
  }

  /** How many bytes the size of a long tag has. */
  function SizeBytes(t: u8): nat {
    if t >= 0xF8 then t - 0xF7 else if 0xB8 <= t < 0xC0 then t - 0xB7 else 0
  }

  /** Why a value that is ahead is not taken as a string. */
  ghost predicate StringRefused(l: Lead, e: Error) {
    if l.kind == Kind.List then e == ExpectedString
    else if l.size > |l.rest| then OutOfReach(e)
    else e == CanonSize
  }

  /** Or as an integer of at most that many bits. */
  ghost predicate UintRefused(l: Lead, maxbits: nat, e: Error) {
    match l.kind
    case List => e == ExpectedString
    case Byte => e == CanonInt
    case String =>
      if l.size > maxbits / 8 then e == UintOverflow
      else if l.size > |l.rest| then OutOfReach(e)
      else e == if l.size > 1 && l.rest[0] == 0 then CanonInt else CanonSize
  }

  /** Or as an integer of any size. */
  ghost predicate BigIntRefused(l: Lead, e: Error) {
    match l.kind
    case List => e == ExpectedString
    case Byte => e == CanonInt
    case String =>
      if l.size > |l.rest| then OutOfReach(e)
      else e == if l.size == 1 && l.rest[0] < 128 then CanonSize else CanonInt
  }

  class Stream {
    const data: seq<u8>     // everything the underlying reader will ever return
    var pos: nat            // how much of it has been read
    var limited: bool       // whether an input limit is in effect
    var remaining: nat      // bytes left of the limit
    var stack: seq<nat>     // bytes left in each open list, modulo 2^64
    var kind: Option<Kind>  // kind of the value ahead, when its tag has been read
    var size: nat           // its size
    var byteval: u8         // its value, for a single byte
    var kinderr: Option<Error>
    ghost var frames: seq<Frame>  // the open lists
    ghost var tagAt: nat          // where the cached tag begins
    ghost var bound: nat          // the position the input limit allows

    ghost predicate Valid()
      reads this
    {
      && pos <= |data|
      && (if limited then pos + remaining == bound < TWO64 else |data| < TWO64)
      && Balanced(stack, frames, pos)
      && (kind.Some? ==> kinderr.None? && size < TWO64 && tagAt < pos && TagRead(kind.value, data[tagAt..pos]))
    }

    /** The cached tag is what the bytes before the current position say. */
    ghost predicate TagRead(k: Kind, tag: seq<u8>)
      requires size < TWO64
      reads this
    {
      if k == Byte then size == 0 && tag == [byteval] && byteval < 0x80 else tag == HeadOf(k, size)
    }

    lemma TopSmall()
      requires Valid()
      ensures InList() ==> Top() < TWO64
    {
    }

    lemma Limit()
      requires Valid()
      ensures limited ==> pos + remaining == bound
    {
    }

    lemma Within()
      requires Valid()
      ensures pos <= |data|
    {
    }

    predicate InList() reads this { stack != [] }

    function Top(): nat
      requires InList()
      reads this
    {
      stack[|stack| - 1]
    }

    /** How many bytes the next reads may take before one of the limits stops them. */
    ghost function Budget(): (n: nat)
      requires Valid()
      reads this
      ensures n <= |data| - pos && (limited ==> n <= remaining) && (InList() ==> n <= Top())
      ensures n == |data| - pos || (limited && n == remaining) || (InList() && n == Top())
    {
      var n := |data| - pos;
      var n := if limited && remaining < n then remaining else n;
      if InList() && Top() < n then Top() else n
    }

    /** The bytes ahead that may be read. */
    ghost function Window(): seq<u8>
      requires Valid()
      reads this
    {
      data[pos..pos + Budget()]
    }

    /** The value ahead, if there is one in the list and its tag is, or was, accepted. */
    ghost function Coming(): Option<Lead>
      requires Valid()
      reads this
    {
      if kind.Some? then Some(Lead(kind.value, size, if kind.value == Byte then byteval else 0, Window()))
      else if InList() && Top() == 0 then None
      else LeadOf(Window(), limited, remaining, stack)
    }

    /** What a successful read of n bytes has done to the stream. */
    ghost predicate Moved(n: nat, pos0: nat, stack0: seq<nat>, budget0: nat)
      reads this
    {
      Valid() && kind.None? && pos == pos0 + n && stack == Take(stack0, n) && Budget() == budget0 - n
    }

    lemma MovedFacts(n: nat, pos0: nat, stack0: seq<nat>, budget0: nat, w: seq<u8>)
      requires Moved(n, pos0, stack0, budget0) && pos0 + budget0 <= |data| && w == data[pos0..pos0 + budget0]
      ensures Valid() && kind.None? && pos == pos0 + n && stack == Take(stack0, n) && Budget() == budget0 - n
      ensures n <= |w| && Window() == w[n..]
    {
      hide Balanced, Take, Wrap;
    }

    lemma MovedTwice(n: nat, m: nat, pos0: nat, stack0: seq<nat>, budget0: nat)
      requires n <= budget0 && Moved(m, pos0 + n, Take(stack0, n), budget0 - n)
      ensures Moved(n + m, pos0, stack0, budget0)
    {
      hide Balanced, Take, Wrap;
      TakeTwice(stack0, n, m);
    }

    constructor (input: seq<u8>, limit: Option<nat>)
      requires if limit.Some? then limit.value < TWO64 else |input| < TWO64
      ensures Valid() && data == input && pos == 0 && stack == [] && kind.None?
      ensures limited == limit.Some? && (limit.Some? ==> remaining == limit.value)
    {
      data, pos := input, 0;
      limited, remaining := limit.Some?, if limit.Some? then limit.value else 0;
      bound := if limit.Some? then limit.value else 0;
      stack, kind, size, byteval, kinderr := [], None, 0, 0, None;
      frames, tagAt := [], 0;
    }

    /** Why n bytes cannot be read: the limit that is in the way, or else the end of the input. */
    ghost function Refusal(n: nat): Error
      reads this
    {
      Refused(stack, limited, remaining, n)
    }

    /** Checks n against the limits and takes it off them. */
    method WillRead(n: nat) returns (err: Option<Error>)
      requires Valid()
      modifies this`kind, this`stack, this`remaining
      ensures kind.None?
      ensures err.None? <==> old((InList() ==> n <= Top()) && (limited ==> n <= remaining))
      ensures InList() == old(InList()) && (err.None? && InList() ==> Top() == old(Top()) - n)
      ensures err.None? ==> stack == Take(old(stack), n) && (limited ==> remaining == old(remaining) - n)
      ensures err.Some? ==> err.value == old(Refusal(n)) != UnexpectedEOF
      ensures |stack| == old(|stack|)
    {
      hide Wrap;
      kind := None;
      if InList() {
        var limit := Top();
        if n > limit { return Some(ElemTooLarge); }
        WrapSmall(limit - n);
        stack := stack[|stack| - 1 := limit - n];
      }
      if limited {
        if n > remaining { return Some(ValueTooLarge); }
        remaining := remaining - n;
      }
      return None;
    }

    /** Reads exactly n bytes, or fails. */
    method ReadFull(n: nat) returns (r: Result<seq<u8>>)
      requires Valid()
      modifies this`kind, this`stack, this`remaining, this`pos
      ensures kind.None?
      ensures r.Ok? <==> n <= old(Budget())
      ensures r.Ok? ==> Valid() && pos == old(pos) + n && r.value == data[old(pos)..pos]
      ensures r.Ok? ==> stack == Take(old(stack), n) && Budget() == old(Budget()) - n
      ensures r.Err? ==> r.error == old(Refusal(n)) && |stack| == old(|stack|)
    {
      hide Balanced, Take, Wrap;
      var err := WillRead(n);
      if err.Some? { return Err(err.value); }
      if n > |data| - pos {
        pos := |data|;
        return Err(UnexpectedEOF);
      }
      r := Ok(data[pos..pos + n]);
      pos := pos + n;
      BalancedTake(old(stack), frames, old(pos), n);
      assert Budget() == old(Budget()) - n;
    }

    method ReadByte() returns (r: Result<u8>)
      requires Valid()
      modifies this`kind, this`stack, this`remaining, this`pos
      ensures kind.None?
      ensures r.Ok? <==> 1 <= old(Budget())
      ensures r.Ok? ==> Moved(1, old(pos), old(stack), old(Budget())) && r.value == data[old(pos)]
      ensures r.Err? ==> r.error == old(Refusal(1)) && |stack| == old(|stack|)
    {
      var b := ReadFull(1);
      match b
      case Err(e) => return Err(e);
      case Ok(s) => return Ok(s[0]);
    }

    /** Reads a big-endian number of n bytes; with more than one byte, a leading zero is refused. */
    method ReadUint(n: nat) returns (r: Result<nat>)
      requires Valid() && n <= 8
      modifies this`kind, this`stack, this`remaining, this`pos
      ensures kind.None?
      ensures r.Ok? <==> n <= old(Budget()) && (n > 1 ==> data[old(pos)] != 0)
      ensures r.Ok? ==> Valid() && pos == old(pos) + n && r.value == Val(data[old(pos)..pos])
      ensures r.Ok? ==> stack == Take(old(stack), n) && Budget() == old(Budget()) - n
      ensures r.Err? ==> r.error == if n > old(Budget()) then old(Refusal(n)) else CanonSize
    {
      if n == 0 {
        kind := None;
        TakeNone(stack, frames, pos);
        return Ok(0);
      } else if n == 1 {
        var b := ReadByte();
        if b.Err? { return Err(b.error); }
        assert data[old(pos)..pos][..0] == [] && data[old(pos)..pos][0] == b.value;
        return Ok(b.value);
      } else {
        var b := ReadFull(n);
        if b.Err? { return Err(b.error); }
        if b.value[0] == 0 { return Err(CanonSize); }
        return Ok(Val(b.value));
      }
    }

    /** The size field of a long tag; the tag byte at old(pos) - 1 is already read. */
    method ReadLongSize(n: nat) returns (r: Result<nat>)
      requires Valid() && 1 <= n <= 8
      modifies this`kind, this`stack, this`remaining, this`pos
      ensures kind.None?
      ensures r == ReadSize(old(Window()), n) || (r.Err? && ReadSize(old(Window()), n).Err?)
      ensures r.Ok? ==> Moved(n, old(pos), old(stack), old(Budget()))
      ensures r.Err? ==> r.error == if n > old(Budget()) then old(Refusal(n)) else CanonSize
    {
      ghost var w := Window();
      r := ReadUint(n);
      if n <= |w| {
        assert w[..n] == data[old(pos)..old(pos) + n];
        if w[0] == 0 && n == 1 { assert w[..1][..0] == []; }
      }
      if r.Ok? && r.value < 56 {
        r := Err(CanonSize);
      }
    }

    /** The tag whose first byte has been read; w is what could be read before that. */
    method KindBehind(t: u8, ghost w: seq<u8>, ghost p: nat, ghost st: seq<nat>) returns (r: Result<(Kind, nat)>)
      requires Valid() && p + |w| <= |data| && w == data[p..p + |w|] && Moved(1, p, st, |w|)
      requires w != [] && t == w[0]
      modifies this`kind, this`stack, this`remaining, this`pos, this`byteval
      ensures r.Ok? <==> TagOf(w).Ok?
      ensures r.Ok? ==> var tag := TagOf(w).value;
              && r.value == (tag.kind, if tag.kind == Byte then 0 else tag.size)
              && (tag.kind == Byte ==> byteval == t)
              && Moved(if tag.kind == Byte then 1 else tag.tagSize, p, st, |w|)
      ensures r.Err? ==> var n := SizeBytes(t); 1 <= n && r.error == if n >= |w| then old(Refusal(n)) else CanonSize
    {
      hide Valid, Budget, Moved, ReadSize, TagOf, Take, Refused;
      TagCases(w);
      MovedFacts(1, p, st, |w|, w);
      if t < 0x80 {
        ByteRead(t);
        return Ok((Byte, 0));
      } else if t < 0xB8 {
        ByteRead(0);
        return Ok((String, t - 0x80));
      } else if 0xC0 <= t < 0xF8 {
        ByteRead(0);
        return Ok((Kind.List, t - 0xC0));
      } else {
        ByteRead(0);
        MovedFacts(1, p, st, |w|, w);
        var n := if t < 0xC0 then t - 0xB7 else t - 0xF7;
        var size := ReadLongSize(n);
        if size.Err? { return Err(size.error); }
        MovedTwice(1, n, p, st, |w|);
        return Ok((if t < 0xC0 then String else Kind.List, size.value));
      }
    }

    /** Reads the tag ahead; its outcome is what the bytes inside the limits say. */
    method ReadKind() returns (r: Result<(Kind, nat)>)
      requires Valid()
      modifies this`kind, this`stack, this`remaining, this`pos, this`byteval
      ensures r.Ok? <==> TagOf(old(Window())).Ok?
      ensures r.Ok? ==> var t := TagOf(old(Window())).value;
              && r.value == (t.kind, if t.kind == Byte then 0 else t.size)
              && (t.kind == Byte ==> byteval == data[old(pos)])
              && Moved(if t.kind == Byte then 1 else t.tagSize, old(pos), old(stack), old(Budget()))
      ensures r.Err? && old(Budget()) == 0 ==> r.error == if old(stack) == [] then EOF else old(Refusal(1))
      ensures r.Err? && old(Budget()) > 0 ==>
                var n := SizeBytes(old(Window())[0]);
                1 <= n && r.error == if 1 + n > old(Budget()) then old(Refusal(1 + n)) else CanonSize
    {
      hide Valid, Budget, Moved, TagOf, Take, Refused;
      Limit();
      TopSmall();
      RefusedOutside(limited, remaining, 1);
      ghost var w, st, p := Window(), stack, pos;
      NoTag(w);
      var b := ReadByte();
      if b.Err? {
        if stack == [] && b.error in {UnexpectedEOF, ValueTooLarge} { return Err(EOF); }
        return Err(b.error);
      }
      MovedFacts(1, p, st, |w|, w);
      Limit();
      RefusedBehind(st, limited, old(remaining), 1, SizeBytes(b.value));
      r := KindBehind(b.value, w, p, st);
    }

    /** Keeps the value of a single byte; it matters only together with the kind. */
    method ByteRead(b: u8)
      requires Valid() && kind.None?
      modifies this`byteval
      ensures byteval == b
      ensures forall n, p, st, budget :: old(Moved(n, p, st, budget)) ==> Moved(n, p, st, budget)
    {
      hide Balanced, Take, Wrap;
      byteval := b;
    }

    /** Keeps a tag that has been read. */
    method CacheTag(k: Kind, n: nat, ghost at: nat)
      requires Valid() && kind.None? && n < TWO64 && at < pos
      requires if k == Byte then n == 0 && data[at..pos] == [byteval] && byteval < 0x80
               else data[at..pos] == HeadOf(k, n)
      modifies this`kind, this`size, this`kinderr, this`tagAt
      ensures Valid() && kind == Some(k) && size == n && kinderr.None? && tagAt == at && Budget() == old(Budget())
    {
      hide Balanced, HeadOf;
      kind, size, kinderr, tagAt := Some(k), n, None, at;
    }

    /** Reads the tag of the value ahead into the cache. */
    method ReadTag() returns (err: Option<Error>)
      requires Valid() && kind.None?
      modifies this`kind, this`size, this`kinderr, this`stack, this`remaining, this`pos, this`byteval, this`tagAt
      ensures kind.Some? && err == kinderr && err != Some(EOL)
      ensures err.None? <==> TagOf(old(Window())).Ok?
      ensures old(Budget()) == 0 ==> err == Some(if old(stack) == [] then EOF else old(Refusal(1)))
      ensures err.Some? && old(Budget()) > 0 ==> err.value == CanonSize || OutOfReach(err.value)
      ensures err.None? ==> Valid() && tagAt == old(pos) < pos && stack == Take(old(stack), pos - old(pos))
      ensures err.None? ==> Budget() == old(Budget()) - (pos - old(pos))
      ensures err.None? ==> Announces(TagOf(old(Window())).value, kind.value, size, pos - old(pos))
    {
      hide Valid, Budget, Moved, TagOf, HeadOf, Take;
      ghost var w, p, st, budget := Window(), pos, stack, Budget();
      var r := ReadKind();
      if r.Err? {
        kind, size, kinderr := Some(Byte), 0, Some(r.error);
        return kinderr;
      }
      TagBytes(data, p, w);
      ghost var t := TagOf(w).value;
      ghost var taken := if t.kind == Byte then 1 else t.tagSize;
      MovedFacts(taken, p, st, budget, w);
      CacheTag(r.value.0, r.value.1, p);
      err := kinderr;
    }

    /** Reads the tag of the value ahead and checks the size against both limits. */
    method FetchKind() returns (err: Option<Error>)
      requires Valid() && kind.None? && (InList() ==> Top() > 0)
      modifies this`kind, this`size, this`kinderr, this`stack, this`remaining, this`pos, this`byteval, this`tagAt
      ensures kind.Some? && err == kinderr && err != Some(EOL)
      ensures err.None? <==>
                TagOf(old(Window())).Ok? &&
                Accepts(TagOf(old(Window())).value, old(limited), old(remaining), old(stack))
      ensures err.None? ==> Valid() && tagAt == old(pos) < pos && stack == Take(old(stack), pos - old(pos))
      ensures err.None? ==> Budget() == old(Budget()) - (pos - old(pos))
      ensures err.None? ==> Announces(TagOf(old(Window())).value, kind.value, size, pos - old(pos))
      ensures old(Budget()) == 0 ==> err == Some(if old(stack) == [] then EOF else old(Refusal(1)))
      ensures TagOf(old(Window())).Ok? && err.Some? ==>
                err.value == if old(InList() && TagOf(Window()).value.size > Top()) then ElemTooLarge else ValueTooLarge
    {
      hide Valid, Budget, Window, TagOf, Take;
      NoTag(Window());
      var limit := if InList() then Top() else 0;
      Limit();
      err := ReadTag();
      if err.Some? { return; }
      Limit();
      if InList() && size > limit {
        kinderr := Some(ElemTooLarge);
      } else if limited && size > remaining {
        kinderr := Some(ValueTooLarge);
      }
      err := kinderr;
    }

    /** The kind and size of the value ahead, from the cache if the tag has been read. */
    method KindAhead() returns (k: Kind, n: nat, err: Option<Error>)
      requires Valid()
      modifies this`kind, this`size, this`kinderr, this`stack, this`remaining, this`pos, this`byteval, this`tagAt
      ensures err == Some(EOL) <==> old(kind.None? && InList() && Top() == 0)
      ensures err == Some(EOL) ==> unchanged(this)
      ensures err.None? ==> Valid() && kind == Some(k) && size == n
      ensures old(kind.Some?) ==> err.None? && unchanged(this)
      ensures err.None? && old(kind.None?) ==> tagAt == old(pos) < pos && stack == Take(old(stack), pos - old(pos))
      ensures err.None? && old(kind.None?) ==> Budget() == old(Budget()) - (pos - old(pos))
      ensures old(kind.None?) && err != Some(EOL) ==>
                (err.None? <==>
                 TagOf(old(Window())).Ok? &&
                 Accepts(TagOf(old(Window())).value, old(limited), old(remaining), old(stack)))
      ensures old(kind.None?) && err.None? ==> Announces(TagOf(old(Window())).value, k, n, pos - old(pos))
      ensures err.None? <==> old(Coming()).Some?
      ensures err.None? ==> Coming() == old(Coming())
      ensures old(kind.None? && stack == [] && Budget() == 0) ==> err == Some(EOF)
    {
      hide Valid, Budget, TagOf, Take, Accepts;
      if kind.Some? {
        CachedWithoutError();
        return kind.value, size, kinderr;
      }
      if InList() && Top() == 0 {
        return Byte, 0, Some(EOL);
      }
      ghost var w, p := Window(), pos;
      err := FetchKind();
      k, n := kind.value, size;
      if err.None? { SameLead(w, p, old(limited), old(remaining), old(stack)); }
    }

    lemma CachedWithoutError()
      requires Valid() && kind.Some?
      ensures kinderr.None?
    {
    }

    /** Reading a tag into the cache does not change what is ahead. */
    lemma SameLead(w: seq<u8>, p: nat, wasLimited: bool, room: nat, lists: seq<nat>)
      requires Valid() && kind.Some? && tagAt == p < pos && p + |w| <= |data| && w == data[p..p + |w|]
      requires TagOf(w).Ok? && Accepts(TagOf(w).value, wasLimited, room, lists)
      requires Announces(TagOf(w).value, kind.value, size, pos - p) && Budget() == |w| - (pos - p)
      ensures Coming() == LeadOf(w, wasLimited, room, lists)
    {
      hide Balanced, TagOf, HeadOf, Accepts, Budget;
      SliceWithin(data, p, p + |w|, pos - p, |w|);
      assert w[pos - p..] == w[pos - p..|w|];
      if kind.value == Byte { assert data[tagAt..pos] == [data[p]] && w[0] == data[p]; }
    }

    /** Where the value ahead begins, tag included. */
    ghost function ValueStart(): nat
      reads this
    {
      if kind.Some? then tagAt else pos
    }

    /** Reads a string whose tag is cached. */
    method BytesAfterTag() returns (r: Result<seq<u8>>)
      requires Valid() && kind.Some?
      modifies this`kind, this`stack, this`remaining, this`pos
      ensures r != Err(EOL) && (r.Ok? <==> old(IsString(Coming().value)))
      ensures r.Err? ==> StringRefused(old(Coming().value), r.error)
      ensures r.Ok? ==> Valid() && kind.None? && pos > tagAt
      ensures r.Ok? ==> pos >= old(pos) && stack == Take(old(stack), pos - old(pos))
      ensures r.Ok? && old(kind.value == Byte) ==> r.value == [byteval]
      ensures r.Ok? && old(kind.value == String) ==> r.value == data[old(pos)..pos] && pos == old(pos) + size
      ensures r.Ok? ==> EncLen(Str(r.value)) < TWO64 && data[tagAt..pos] == Enc(Str(r.value))
    {
      hide Balanced, Wrap, TagOf, BE, Take, Enc, EncLen;
      ghost var p := pos;
      match kind.value
      case Byte =>
        kind := None;
        TakeNone(stack, frames, pos);
        SingleEnc(byteval);
        return Ok([byteval]);
      case String =>
        r := ReadFull(size);
        if r.Err? { return; }
        if size == 1 && r.value[0] < 128 { return Err(CanonSize); }
        SliceJoin(data, tagAt, p, pos);
        StringEnc(r.value, data[tagAt..pos]);
      case List =>
        return Err(ExpectedString);
    }

    method Bytes() returns (r: Result<seq<u8>>)
      requires Valid()
      modifies this
      ensures unchanged(`limited, `bound)
      ensures r == Err(EOL) <==> old(kind.None? && InList() && Top() == 0)
      ensures r.Ok? ==> Valid() && kind.None? && frames == old(frames)
      ensures r.Ok? <==> old(Coming()).Some? && IsString(old(Coming()).value)
      ensures old(Coming()).Some? && r.Err? ==> StringRefused(old(Coming()).value, r.error)
      ensures r.Ok? ==> EncLen(Str(r.value)) < TWO64
      ensures r.Ok? ==> old(ValueStart()) < pos && data[old(ValueStart())..pos] == Enc(Str(r.value))
      ensures r.Ok? ==> pos >= old(pos) && stack == Take(old(stack), pos - old(pos))
    {
      hide Balanced, Wrap, TagOf, BE, Take, Enc;
      var k, n, err := KindAhead();
      if err.Some? { return Err(err.value); }
      ghost var p := pos;
      TakeNone(old(stack), frames, old(pos));
      r := BytesAfterTag();
      if r.Ok? { TakeTwice(old(stack), p - old(pos), pos - p); }
    }

    /** The raw value, tag included. The tag itself is gone: it is put together again from the kind
        and the size, and comes out as it was because only canonical tags are accepted. */
    method RawAfterTag() returns (r: Result<seq<u8>>)
      requires Valid() && kind.Some?
      modifies this`kind, this`stack, this`remaining, this`pos
      ensures r != Err(EOL) && (r.Ok? <==> old(IsWhole(Coming().value)))
      ensures r.Err? ==> OutOfReach(r.error)
      ensures r.Ok? ==> Valid() && kind.None? && pos > tagAt
      ensures r.Ok? ==> pos >= old(pos) && stack == Take(old(stack), pos - old(pos))
      ensures r.Ok? ==> r.value == data[tagAt..pos]
      ensures r.Ok? ==> old(size) < TWO64 && r.value == old(Spelled(Coming().value))
    {
      hide Balanced, Wrap, TagOf, BE, Take, HeadOf;
      ghost var p := pos;
      var k := kind.value;
      if size <= Budget() { SliceWithin(data, pos, pos + Budget(), 0, size); }
      if k == Byte {
        kind := None;
        TakeNone(stack, frames, pos);
        return Ok([byteval]);
      }
      r := ReadFull(size);
      if r.Err? { return; }
      r := Ok(HeadOf(k, size) + r.value);
      SliceJoin(data, tagAt, p, pos);
    }

    method Raw() returns (r: Result<seq<u8>>)
      requires Valid()
      modifies this
      ensures r == Err(EOL) <==> old(kind.None? && InList() && Top() == 0)
      ensures r.Ok? <==> old(Coming()).Some? && IsWhole(old(Coming()).value)
      ensures old(Coming()).Some? && r.Err? ==> OutOfReach(r.error)
      ensures r.Ok? ==> Valid() && kind.None? && frames == old(frames)
      ensures r.Ok? ==> old(ValueStart()) < pos && r.value == data[old(ValueStart())..pos]
      ensures r.Ok? ==> pos >= old(pos) && stack == Take(old(stack), pos - old(pos))
      ensures r.Ok? ==> old(Coming()).value.size < TWO64 && r.value == Spelled(old(Coming()).value)
    {
      hide Balanced, Wrap, TagOf, BE, Take, IsWhole, Spelled;
      var k, n, err := KindAhead();
      if err.Some? { return Err(err.value); }
      ghost var p := pos;
      TakeNone(old(stack), frames, old(pos));
      r := RawAfterTag();
      if r.Ok? { TakeTwice(old(stack), p - old(pos), pos - p); }
    }

    lemma UintReady(maxbits: nat)
      requires Valid() && kind == Some(String)
      ensures IsUint(Coming().value, maxbits) <==>
                size <= maxbits / 8 && size <= Budget() && (size > 1 ==> data[pos] != 0) &&
                (size > 0 ==> Val(data[pos..pos + size]) >= 128)
    {
      hide Balanced, HeadOf, Val;
      if size <= Budget() { SliceWithin(data, pos, pos + Budget(), 0, size); }
    }

    method UintAfterTag(maxbits: nat) returns (r: Result<nat>)
      requires Valid() && kind.Some? && maxbits <= 64
      modifies this`kind, this`stack, this`remaining, this`pos
      ensures r != Err(EOL) && (r.Ok? <==> old(IsUint(Coming().value, maxbits)))
      ensures r.Err? ==> UintRefused(old(Coming().value), maxbits, r.error)
      ensures r.Ok? ==> Valid() && kind.None? && pos > tagAt
      ensures r.Ok? ==> pos >= old(pos) && stack == Take(old(stack), pos - old(pos))
      ensures r.Ok? ==> r.value < TWO64 && data[tagAt..pos] == UintEnc(r.value)
      ensures r.Ok? && maxbits >= 8 ==> r.value < Pow256(maxbits / 8)
    {
      hide Balanced, Wrap, TagOf, Take, BE, UintEnc, Budget, Val, Pow256;
      ghost var p := pos;
      if kind.value == String { UintReady(maxbits); }
      match kind.value
      case Byte =>
        if byteval == 0 { return Err(CanonInt); }
        kind := None;
        TakeNone(stack, frames, pos);
        SmallUint(byteval);
        if maxbits >= 8 { Pow256Grows(1, maxbits / 8); }
        return Ok(byteval);
      case String =>
        if size > maxbits / 8 { return Err(UintOverflow); }
        r := ReadUint(size);
        if r.Err? { return Err(if r.error == CanonSize then CanonInt else r.error); }
        if size > 0 && r.value < 128 { return Err(CanonSize); }
        SliceJoin(data, tagAt, p, pos);
        CanonicalUint(data[p..pos]);
        ValBound(data[p..pos]);
        Pow256Grows(size, maxbits / 8);
      case List =>
        return Err(ExpectedString);
    }

    /** An unsigned integer of at most maxbits bits, in its canonical form only. */
    method Uint(maxbits: nat) returns (r: Result<nat>)
      requires Valid() && maxbits <= 64
      modifies this
      ensures r == Err(EOL) <==> old(kind.None? && InList() && Top() == 0)
      ensures r.Ok? <==> old(Coming()).Some? && IsUint(old(Coming()).value, maxbits)
      ensures old(Coming()).Some? && r.Err? ==> UintRefused(old(Coming()).value, maxbits, r.error)
      ensures r.Ok? ==> Valid() && kind.None? && frames == old(frames)
      ensures r.Ok? ==> r.value < TWO64 && old(ValueStart()) < pos && data[old(ValueStart())..pos] == UintEnc(r.value)
      ensures r.Ok? ==> pos >= old(pos) && stack == Take(old(stack), pos - old(pos))
      ensures r.Ok? && maxbits >= 8 ==> r.value < Pow256(maxbits / 8)
    {
      hide Balanced, Wrap, TagOf, Take, BE, UintEnc, Pow256;
      var k, n, err := KindAhead();
      if err.Some? { return Err(err.value); }
      ghost var p := pos;
      TakeNone(old(stack), frames, old(pos));
      r := UintAfterTag(maxbits);
      if r.Ok? { TakeTwice(old(stack), p - old(pos), pos - p); }
    }

    method BigIntAfterTag() returns (r: Result<nat>)
      requires Valid() && kind.Some?
      modifies this`kind, this`stack, this`remaining, this`pos
      ensures r != Err(EOL) && (r.Ok? <==> old(IsBigInt(Coming().value)))
      ensures r.Err? ==> BigIntRefused(old(Coming().value), r.error)
      ensures r.Ok? ==> Valid() && kind.None? && pos > tagAt
      ensures r.Ok? ==> pos >= old(pos) && stack == Take(old(stack), pos - old(pos))
      ensures r.Ok? ==> EncLen(Str(BE(r.value))) < TWO64 && data[tagAt..pos] == Enc(Str(BE(r.value)))
    {
      hide Valid, BE, Take, Enc, EncLen, Val;
      Within();
      var b := BytesAfterTag();
      if b.Err? { return Err(b.error); }
      Within();
      if |b.value| > 0 && b.value[0] == 0 { return Err(CanonInt); }
      BEOfVal(b.value);
      r := Ok(Val(b.value));
    }

    /** An unsigned integer of any size, in its canonical form only. */
    method DecodeBigInt() returns (r: Result<nat>)
      requires Valid()
      modifies this
      ensures r == Err(EOL) <==> old(kind.None? && InList() && Top() == 0)
      ensures r.Ok? <==> old(Coming()).Some? && IsBigInt(old(Coming()).value)
      ensures old(Coming()).Some? && r.Err? ==> BigIntRefused(old(Coming()).value, r.error)
      ensures r.Ok? ==> Valid() && kind.None? && frames == old(frames)
      ensures r.Ok? ==> EncLen(Str(BE(r.value))) < TWO64 && old(ValueStart()) < pos &&
                        data[old(ValueStart())..pos] == Enc(Str(BE(r.value)))
      ensures r.Ok? ==> pos >= old(pos) && stack == Take(old(stack), pos - old(pos))
    {
      hide Balanced, Wrap, TagOf, BE, Take, Enc, EncLen;
      var k, n, err := KindAhead();
      if err.Some? { return Err(err.value); }
      ghost var p := pos;
      TakeNone(old(stack), frames, old(pos));
      r := BigIntAfterTag();
      if r.Ok? { TakeTwice(old(stack), p - old(pos), pos - p); }
    }

    /** Opens the list ahead and charges the enclosing list for all of it. */
    method ListAfterTag() returns (r: Result<nat>)
      requires Valid() && kind.Some?
      modifies this`stack, this`frames, this`kind, this`size
      ensures r.Ok? <==> old(kind.value == Kind.List)
      ensures r.Err? ==> r.error == ExpectedList && unchanged(this)
      ensures r.Ok? ==> Valid() && kind.None? && r.value == old(size) < TWO64
      ensures r.Ok? ==> frames == old(frames) + [Frame(pos, r.value)]
      ensures r.Ok? ==> stack == Take(old(stack), r.value) + [r.value]
      ensures r.Ok? ==> data[tagAt..pos] == LstHead(r.value)
    {
      hide Balanced, Wrap, TagOf, BE;
      if kind.value != Kind.List { return Err(ExpectedList); }
      BalancedPush(stack, frames, pos, size);
      if InList() {
        stack := stack[|stack| - 1 := Wrap(Top() - size)];
      }
      stack := stack + [size];
      frames := frames + [Frame(pos, size)];
      r := Ok(size);
      kind, size := None, 0;
    }

    method List() returns (r: Result<nat>)
      requires Valid()
      modifies this
      ensures r == Err(EOL) <==> old(kind.None? && InList() && Top() == 0)
      ensures r.Ok? ==> Valid() && kind.None? && r.value < TWO64 && pos >= old(pos)
      ensures r.Ok? ==> frames == old(frames) + [Frame(pos, r.value)]
      ensures r.Ok? ==> stack == Take(old(stack), pos - old(pos) + r.value) + [r.value]
      ensures r.Ok? ==> old(ValueStart()) < pos && data[old(ValueStart())..pos] == LstHead(r.value)
      ensures r.Ok? <==> old(Coming()).Some? && old(Coming()).value.kind == Kind.List
      ensures r.Ok? ==> r.value == old(Coming()).value.size
      ensures old(Coming()).Some? && r.Err? ==>
                r.error == ExpectedList && Valid() && kind.Some? && Coming() == old(Coming())
      ensures old(kind.Some?) && r.Ok? ==> unchanged(`pos, `remaining)
      ensures unchanged(`limited, `bound)
    {
      hide Balanced, Wrap, TagOf, BE, Take;
      var k, n, err := KindAhead();
      if err.Some? { return Err(err.value); }
      ghost var p := pos;
      TakeNone(old(stack), frames, old(pos));
      r := ListAfterTag();
      if r.Ok? { TakeTwice(old(stack), p - old(pos), r.value); }
    }

    /** Closes the innermost list. It can only be closed when its content took exactly the bytes
        its header declared, whatever the stack entries went through in between. */
    method ListEnd() returns (r: Result<()>)
      requires Valid()
      modifies this`stack, this`frames, this`kind, this`size
      ensures r.Ok? <==> old(InList() && Top() == 0)
      ensures r.Err? ==> r.error == (if old(InList()) then NotAtEOL else NotInList) && unchanged(this)
      ensures r.Ok? ==> Valid() && kind.None?
      ensures r.Ok? ==> stack == old(stack[..|stack| - 1]) && frames == old(frames[..|frames| - 1])
      ensures r.Ok? ==> var f := old(frames[|frames| - 1]); pos == f.start + f.declared
    {
      if !InList() { return Err(NotInList); }
      if Top() > 0 { return Err(NotAtEOL); }
      ghost var f := frames[|frames| - 1];
      WrapZero(f.declared, pos - f.start);
      stack := stack[..|stack| - 1];
      frames := frames[..|frames| - 1];
      kind, size := None, 0;
      return Ok(());
    }
  }

  lemma NoTag(w: seq<u8>)
    ensures w == [] ==> TagOf(w).Err?
  {
  }

  lemma SingleEnc(b: u8)
    requires b < 0x80
    ensures EncLen(Str([b])) == 1 && Enc(Str([b])) == [b]
  {
  }

  lemma StringEnc(b: seq<u8>, e: seq<u8>)
    requires !SelfEncoded(b) && |b| < TWO64 && e == StrHead(|b|) + b && |e| < TWO64
    ensures EncLen(Str(b)) == |e| && Enc(Str(b)) == e
  {
    hide BE;
  }

  lemma SmallUint(b: u8)
    requires 0 < b < 0x80
    ensures UintEnc(b) == [b]
  {
    OneByte(b);
  }

  /** An integer's bytes as `uint` accepts them are its canonical form. */
  lemma CanonicalUint(b: seq<u8>)
    requires |b| <= 8 && (|b| > 1 ==> b[0] != 0) && (|b| > 0 ==> Val(b) >= 128)
    ensures Val(b) < TWO64 && StrHead(|b|) + b == UintEnc(Val(b))
  {
    hide BE, Pow256, Val;
    SingleVal(b);
    BEOfVal(b);
    BELength(Val(b), 8);
    Pow256Table();
  }

  lemma SingleVal(b: seq<u8>)
    ensures |b| == 1 ==> Val(b) == b[0]
  {
    if |b| == 1 { assert b[..0] == [] && Val(b[..0]) == 0; }
  }

  /** The two size checks of `Kind`: the list limit is the one from before the tag was read, the
      input limit the one from after. */
  ghost predicate Accepts(t: Tag, limited: bool, remaining: nat, stack: seq<nat>)
  {
    t.kind == Byte ||
    ((stack != [] ==> t.size <= stack[|stack| - 1]) && (limited ==> t.tagSize + t.size <= remaining))
  }

  /** What `Kind` reports for a tag; a single byte is its own tag, with size zero. */
  ghost predicate Announces(t: Tag, k: Kind, n: nat, taken: nat)
  {
    k == t.kind && (if k == Byte then n == 0 && taken == 1 else n == t.size && taken == t.tagSize)
  }

  /** "No entry ever underflows" is false: a list of two bytes that holds the tag 0xC2 of another list
      of two bytes can be opened, and so can the inner one, which takes 1 + 2 from 2. */
  method EntryWraps() returns (s: Stream)
    ensures fresh(s) && s.Valid() && s.data == [0xC2, 0xC2, 0, 0] && s.stack == [TWO64 - 1, 2]
  {
    hide Balanced, BE;
    s := new Stream([0xC2, 0xC2, 0, 0], Some(4));
    var outer := s.List();
    var inner := s.List();
  }

  /** An entry wraps exactly when the inner list is larger than what its tag leaves of the outer one;
      the check lets that through by at most the length of the tag. */
  lemma WrapsExactly(t: Tag, limited: bool, remaining: nat, stack: seq<nat>)
    requires t.kind != Byte && stack != [] && t.tagSize <= stack[|stack| - 1] < TWO64 && t.size < TWO64
    requires Accepts(t, limited, remaining, stack)
    ensures var top := stack[|stack| - 1];
            var after := Take(Take(stack, t.tagSize), t.size)[|stack| - 1];
            && (after == top - t.tagSize - t.size <==> t.size <= top - t.tagSize)
            && (after != top - t.tagSize - t.size ==> after >= TWO64 - t.tagSize)
  {
    TakeTwice(stack, t.tagSize, t.size);
  }

  /** A tag by its first byte. */
  lemma TagCases(w: seq<u8>)
    ensures w == [] ==> TagOf(w).Err?
    ensures w != [] && w[0] < 0x80 ==> TagOf(w) == Ok(Tag(Byte, 0, 1))
    ensures w != [] && 0x80 <= w[0] < 0xB8 ==> TagOf(w) == Ok(Tag(String, 1, w[0] - 0x80))
    ensures w != [] && 0xC0 <= w[0] < 0xF8 ==> TagOf(w) == Ok(Tag(Kind.List, 1, w[0] - 0xC0))
    ensures w != [] && (0xB8 <= w[0] < 0xC0 || 0xF8 <= w[0]) ==>
              TagOf(w) == if w[0] < 0xC0 then LongTag(String, w, w[0] - 0xB7)
                          else LongTag(Kind.List, w, w[0] - 0xF7)
  {
  }

  lemma TagBytes(data: seq<u8>, pos: nat, w: seq<u8>)
    requires pos + |w| <= |data| && w == data[pos..pos + |w|] && TagOf(w).Ok?
    ensures var t := TagOf(w).value;
            && t.size < TWO64 && t.tagSize <= |w| && (t.kind != Byte ==> t.tagSize >= 1)
            && (t.kind != Byte ==> data[pos..pos + t.tagSize] == HeadOf(t.kind, t.size))
            && (t.kind == Byte ==> data[pos..pos + 1] == [data[pos]] && data[pos] < 0x80)
  {
    TagSound(w);
    assert w[..TagOf(w).value.tagSize] == data[pos..pos + TagOf(w).value.tagSize];
  }
}

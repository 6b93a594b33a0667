/** How two peers number the messages of the sub-protocols they share: p2p/peer.go, p2p/protocol.go. */
module MatchProtocols {
  import opened Options
  import opened Bytes
  import opened Sorting

  type Name = string

  datatype Cap = Cap(name: Name, version: nat)

  type u64 = x: nat | x < TWO64

  datatype Protocol = Protocol(cap: Cap, length: u64)

  /** A running protocol: its definition and the first message code assigned to it. */
  datatype Slot = Slot(proto: Protocol, offset: u64)

  /** Codes below this belong to the base protocol. */
  const BASE_PROTOCOL_LENGTH := 16

  /** Strings in byte order. */
  predicate NameLess(a: Name, b: Name) {
    b != [] && (a == [] || a[0] < b[0] || (a[0] == b[0] && NameLess(a[1..], b[1..])))
  }

  /** The first name is a proper prefix of the second, or smaller in the first place where they differ. */
  ghost predicate Smaller(a: Name, b: Name) {
    exists i :: 0 <= i <= |a| && i < |b| && a[..i] == b[..i] && (i == |a| || a[i] < b[i])
  }

  lemma {:induction false} NameOrder(a: Name, b: Name)
    ensures NameLess(a, b) <==> Smaller(a, b)
  {
    if a == [] {
      if b != [] { assert a[..0] == b[..0]; }
    } else if b != [] {
      NameOrder(a[1..], b[1..]);
      if a[0] < b[0] { assert a[..0] == b[..0]; }
      if a[0] == b[0] { SmallerBehind(a, b); }
      if Smaller(a, b) {
        var i :| 0 <= i <= |a| && i < |b| && a[..i] == b[..i] && (i == |a| || a[i] < b[i]);
        if i > 0 { assert a[0] == a[..i][0] == b[..i][0] == b[0]; }
      }
    }
  }

  lemma SmallerBehind(a: Name, b: Name)
    requires a != [] && b != [] && a[0] == b[0]
    ensures Smaller(a, b) <==> Smaller(a[1..], b[1..])
  {
    if Smaller(a, b) {
      var i :| 0 <= i <= |a| && i < |b| && a[..i] == b[..i] && (i == |a| || a[i] < b[i]);
      assert a[1..][..i - 1] == a[..i][1..] && b[1..][..i - 1] == b[..i][1..];
    }
    if Smaller(a[1..], b[1..]) {
      var i :| 0 <= i <= |a[1..]| && i < |b[1..]| && a[1..][..i] == b[1..][..i] &&
               (i == |a[1..]| || a[1..][i] < b[1..][i]);
      assert a[..i + 1] == [a[0]] + a[1..][..i] && b[..i + 1] == [b[0]] + b[1..][..i];
    }
  }

  predicate Precedes(a: Cap, b: Cap) {
    NameLess(a.name, b.name) || (a.name == b.name && a.version < b.version)
  }

  lemma {:induction false} NameLessTrans(a: Name, b: Name, c: Name)
    requires NameLess(a, b) && NameLess(b, c)
    ensures NameLess(a, c)
  {
    if a != [] && a[0] == b[0] && b[0] == c[0] { NameLessTrans(a[1..], b[1..], c[1..]); }
  }

  lemma {:induction false} NameLessTotal(a: Name, b: Name)
    ensures NameLess(a, b) || a == b || NameLess(b, a)
    ensures !(NameLess(a, b) && NameLess(b, a))
  {
    if a != [] && b != [] && a[0] == b[0] {
      NameLessTotal(a[1..], b[1..]);
      assert a == [a[0]] + a[1..] && b == [b[0]] + b[1..];
    }
  }

  lemma NameLessIrreflexive(a: Name)
    ensures !NameLess(a, a)
  {
    NameLessTotal(a, a);
  }

  lemma PrecedesCompares()
    ensures Comparison(Precedes)
  {
    forall a, b | Precedes(a, b) ensures !Precedes(b, a) {
      NameLessTotal(a.name, b.name);
      NameLessIrreflexive(a.name);
    }
    forall a, b, c | !Precedes(b, a) && !Precedes(c, b) ensures !Precedes(c, a) {
      PrecedesTrans(a, b, c);
    }
  }

  lemma PrecedesTrans(a: Cap, b: Cap, c: Cap)
    requires !Precedes(b, a) && !Precedes(c, b)
    ensures !Precedes(c, a)
  {
    hide NameLess;
    NameLessTotal(a.name, b.name);
    NameLessTotal(b.name, c.name);
    NameLessTotal(a.name, c.name);
    if NameLess(a.name, b.name) && NameLess(b.name, c.name) { NameLessTrans(a.name, b.name, c.name); }
  }

  function Find(protocols: seq<Protocol>, c: Cap): (r: Option<Protocol>)
    ensures r.Some? ==> r.value in protocols && r.value.cap == c
    ensures r.None? <==> forall p <- protocols :: p.cap != c
  {
    if protocols == [] then None
    else if protocols[0].cap == c then Some(protocols[0])
    else Find(protocols[1..], c)
  }

  /** Of several protocols with one name and version the first in the list is taken. */
  lemma {:induction false} FindFirst(protocols: seq<Protocol>, c: Cap, i: nat)
    requires i < |protocols| && protocols[i].cap == c && forall j :: 0 <= j < i ==> protocols[j].cap != c
    ensures Find(protocols, c) == Some(protocols[i])
    decreases i
  {
    if i > 0 { FindFirst(protocols[1..], c, i - 1); }
  }

  ghost function Shared(protocols: seq<Protocol>, caps: seq<Cap>): set<Cap> {
    set c | c in caps && Find(protocols, c).Some?
  }

  ghost predicate Ascending(bs: seq<Cap>) {
    forall i, j :: 0 <= i < j < |bs| ==> NameLess(bs[i].name, bs[j].name)
  }

  ghost predicate Covered(bs: seq<Cap>, c: Cap) {
    exists k :: 0 <= k < |bs| && bs[k].name == c.name && bs[k].version >= c.version
  }

  /** The shared capabilities in name order, each name once, with the highest shared version. */
  ghost predicate Best(bs: seq<Cap>, shared: set<Cap>) {
    Ascending(bs) && (forall k :: 0 <= k < |bs| ==> bs[k] in shared) && (forall c <- shared :: Covered(bs, c))
  }

  /** No capability of the list comes after this one. */
  ghost predicate NotBefore(c: Cap, bs: seq<Cap>) {
    forall k :: 0 <= k < |bs| ==> !Precedes(c, bs[k])
  }

  ghost function Total(protocols: seq<Protocol>, bs: seq<Cap>): nat {
    if bs == [] then BASE_PROTOCOL_LENGTH
    else
      var p := Find(protocols, bs[|bs| - 1]);
      Total(protocols, bs[..|bs| - 1]) + if p.Some? then p.value.length else 0
  }

  ghost predicate Named(result: map<Name, Slot>, bs: seq<Cap>) {
    forall name :: name in result <==> exists k :: 0 <= k < |bs| && bs[k].name == name
  }

  /** One slot per name, laid end to end from the base length, in 64-bit arithmetic. */
  ghost predicate Laid(protocols: seq<Protocol>, result: map<Name, Slot>, bs: seq<Cap>) {
    Named(result, bs) && forall k :: 0 <= k < |bs| ==> Assigned(protocols, result, bs, k)
  }

  ghost predicate Assigned(protocols: seq<Protocol>, result: map<Name, Slot>, bs: seq<Cap>, k: nat)
    requires k < |bs|
  {
    bs[k].name in result && Some(result[bs[k].name].proto) == Find(protocols, bs[k]) &&
    result[bs[k].name].offset == Total(protocols, bs[..k]) % TWO64
  }

  /** What is left of the matches once an older version of the same protocol is taken back. */
  ghost function Base(bs: seq<Cap>, c: Cap): seq<Cap> {
    if bs != [] && bs[|bs| - 1].name == c.name then bs[..|bs| - 1] else bs
  }

  ghost function Extended(bs: seq<Cap>, c: Cap): seq<Cap> {
    Base(bs, c) + [c]
  }

  /** In sorted order a name that was matched before can only be the last one. */
  lemma OnlyLast(bs: seq<Cap>, c: Cap, k: nat)
    requires Ascending(bs) && NotBefore(c, bs) && k < |bs|
    ensures bs[k].name == c.name ==> k == |bs| - 1 && c.version >= bs[k].version
    ensures bs[k].name != c.name ==> NameLess(bs[k].name, c.name)
  {
    hide NameLess;
    NameLessTotal(bs[k].name, c.name);
    assert !Precedes(c, bs[k]) && !Precedes(c, bs[|bs| - 1]);
  }

  lemma AscendingExtended(bs: seq<Cap>, c: Cap)
    requires Ascending(bs) && NotBefore(c, bs)
    ensures Ascending(Extended(bs, c))
  {
    hide NameLess, Precedes;
    forall k | 0 <= k < |bs| ensures bs[k].name != c.name ==> NameLess(bs[k].name, c.name) {
      OnlyLast(bs, c, k);
    }
    forall k | 0 <= k < |bs| - 1 ensures bs[k].name != c.name {
      OnlyLast(bs, c, k);
    }
  }

  lemma CoveredExtended(bs: seq<Cap>, c: Cap, d: Cap)
    requires Ascending(bs) && NotBefore(c, bs) && (d == c || Covered(bs, d))
    ensures Covered(Extended(bs, c), d)
  {
    hide NameLess, Precedes, Ascending, NotBefore;
    var t := Extended(bs, c);
    assert t[|t| - 1] == c;
    if d != c {
      var k :| 0 <= k < |bs| && bs[k].name == d.name && bs[k].version >= d.version;
      OnlyLast(bs, c, k);
      if d.name != c.name { assert t[k] == bs[k]; }
    }
  }

  lemma BestExtended(bs: seq<Cap>, shared: set<Cap>, c: Cap)
    requires Best(bs, shared) && NotBefore(c, bs)
    ensures Best(Extended(bs, c), shared + {c})
  {
    hide Ascending, Covered, NotBefore;
    AscendingExtended(bs, c);
    forall d <- shared + {c} ensures Covered(Extended(bs, c), d) {
      CoveredExtended(bs, c, d);
    }
  }

  lemma TotalAppend(protocols: seq<Protocol>, bs: seq<Cap>, c: Cap)
    requires Find(protocols, c).Some?
    ensures Total(protocols, bs + [c]) == Total(protocols, bs) + Find(protocols, c).value.length
  {
    assert (bs + [c])[..|bs|] == bs;
  }

  /** Taking the old match back returns to where it began. */
  lemma Reverted(total: nat, length: nat)
    ensures ((total + length) % TWO64 - length) % TWO64 == total % TWO64
  {
    var q := (total + length) / TWO64;
    assert (total + length) % TWO64 - length == total - q * TWO64;
    assert (total - q * TWO64) % TWO64 == total % TWO64;
  }

  lemma Advanced(total: nat, length: nat)
    ensures (total % TWO64 + length) % TWO64 == (total + length) % TWO64
  {
  }

  lemma NamedExtended(result: map<Name, Slot>, bs: seq<Cap>, c: Cap, slot: Slot)
    requires Named(result, bs) && Ascending(bs) && NotBefore(c, bs)
    ensures Named(result[c.name := slot], Extended(bs, c))
    ensures c.name in result <==> Base(bs, c) != bs
  {
    hide Ascending, NotBefore;
    var base, t := Base(bs, c), Extended(bs, c);
    assert t[|base|] == c;
    forall k | 0 <= k < |bs| ensures bs[k].name == c.name ==> k == |bs| - 1 {
      OnlyLast(bs, c, k);
    }
    forall name | name in result && name != c.name ensures exists k :: 0 <= k < |t| && t[k].name == name {
      var k :| 0 <= k < |bs| && bs[k].name == name;
      assert t[k] == bs[k];
    }
    forall k | 0 <= k < |base| ensures t[k].name in result {
      assert t[k] == bs[k];
    }
  }

  /** Assigning a new match keeps the layout; a name already assigned is that of the last match. */
  lemma LaidExtended(protocols: seq<Protocol>, result: map<Name, Slot>, bs: seq<Cap>, c: Cap)
    requires Laid(protocols, result, bs) && Ascending(bs) && NotBefore(c, bs) && Find(protocols, c).Some?
    ensures var slot := Slot(Find(protocols, c).value, Total(protocols, Base(bs, c)) % TWO64);
            Laid(protocols, result[c.name := slot], Extended(bs, c))
    ensures c.name in result <==> Base(bs, c) != bs
  {
    hide Ascending, NotBefore, Total, Find, Named;
    var base, t := Base(bs, c), Extended(bs, c);
    var slot := Slot(Find(protocols, c).value, Total(protocols, base) % TWO64);
    NamedExtended(result, bs, c, slot);
    var result' := result[c.name := slot];
    forall k | 0 <= k < |base| ensures Assigned(protocols, result', t, k) {
      OnlyLast(bs, c, k);
      assert Assigned(protocols, result, bs, k);
      assert t[..k] == bs[..k] && t[k] == bs[k];
    }
    assert t[..|base|] == base && t[|base|] == c;
  }

  /** The offset after the assignment, and before it when an old match was taken back. */
  lemma OffsetExtended(protocols: seq<Protocol>, result: map<Name, Slot>, bs: seq<Cap>, c: Cap, offset: nat)
    requires Laid(protocols, result, bs) && Find(protocols, c).Some? && offset == Total(protocols, bs) % TWO64
    ensures Base(bs, c) != bs ==> c.name in result
    ensures Base(bs, c) != bs ==>
              (offset - result[c.name].proto.length) % TWO64 == Total(protocols, Base(bs, c)) % TWO64
    ensures (Total(protocols, Base(bs, c)) % TWO64 + Find(protocols, c).value.length) % TWO64
         == Total(protocols, Extended(bs, c)) % TWO64
  {
    hide Find, Total;
    var base := Base(bs, c);
    TotalAppend(protocols, base, c);
    Advanced(Total(protocols, base), Find(protocols, c).value.length);
    if base != bs {
      var last := bs[|bs| - 1];
      assert Assigned(protocols, result, bs, |bs| - 1);
      TotalAppend(protocols, base, last);
      assert base + [last] == bs;
      Reverted(Total(protocols, base), result[c.name].proto.length);
    }
  }

  lemma SharedNext(protocols: seq<Protocol>, s: seq<Cap>, i: nat, bs: seq<Cap>)
    requires Sorted(s, Precedes) && i < |s| && Best(bs, Shared(protocols, s[..i]))
    ensures Find(protocols, s[i]).Some? ==> Shared(protocols, s[..i + 1]) == Shared(protocols, s[..i]) + {s[i]}
    ensures Find(protocols, s[i]).None? ==> Shared(protocols, s[..i + 1]) == Shared(protocols, s[..i])
    ensures NotBefore(s[i], bs)
  {
    hide Find, Precedes, Covered, Ascending;
    assert s[..i + 1] == s[..i] + [s[i]];
  }

  method Lookup(protocols: seq<Protocol>, c: Cap) returns (r: Option<Protocol>)
    ensures r == Find(protocols, c)
  {
    for j := 0 to |protocols|
      invariant Find(protocols, c) == Find(protocols[j..], c)
    {
      if protocols[j].cap == c { return Some(protocols[j]); }
    }
    return None;
  }

  /** The slots are those of the best shared capabilities. */
  ghost predicate Matched(protocols: seq<Protocol>, caps: seq<Cap>, result: map<Name, Slot>) {
    exists bs :: Best(bs, Shared(protocols, caps)) && Laid(protocols, result, bs)
  }

  /** For every list of protocols and of the other side's capabilities, in any order and with any
      repetitions: each shared name runs its highest shared version, laid end to end in name order. */
  method Match(protocols: seq<Protocol>, caps: seq<Cap>) returns (result: map<Name, Slot>)
    ensures Matched(protocols, caps, result)
  {
    hide Find, Sorted, Shared, Best, Laid, Base, Extended, Total, NameLess, Precedes, NotBefore;
    PrecedesCompares();
    var s := Sort(caps, Precedes);
    var offset: u64 := BASE_PROTOCOL_LENGTH;
    result := map[];
    ghost var bs: seq<Cap> := [];
    MatchStart(protocols, s);
    for i := 0 to |s|
      invariant Best(bs, Shared(protocols, s[..i])) && Laid(protocols, result, bs)
      invariant offset == Total(protocols, bs) % TWO64
    {
      var c := s[i];
      SharedNext(protocols, s, i, bs);
      var r := Lookup(protocols, c);
      if r.Some? {
        BestExtended(bs, Shared(protocols, s[..i]), c);
        BestAscending(bs, Shared(protocols, s[..i]));
        LaidExtended(protocols, result, bs, c);
        OffsetExtended(protocols, result, bs, c, offset);
        if c.name in result {
          offset := (offset - result[c.name].proto.length) % TWO64;
        }
        result := result[c.name := Slot(r.value, offset)];
        offset := (offset + r.value.length) % TWO64;
        bs := Extended(bs, c);
      }
    }
    SharedPermuted(protocols, s, caps);
  }

  lemma MatchStart(protocols: seq<Protocol>, s: seq<Cap>)
    ensures Best([], Shared(protocols, s[..0])) && Laid(protocols, map[], [])
    ensures Total(protocols, []) % TWO64 == BASE_PROTOCOL_LENGTH
  {
  }

  lemma BestAscending(bs: seq<Cap>, shared: set<Cap>)
    requires Best(bs, shared)
    ensures Ascending(bs)
  {
  }

  lemma SharedPermuted(protocols: seq<Protocol>, s: seq<Cap>, caps: seq<Cap>)
    requires multiset(s) == multiset(caps)
    ensures Shared(protocols, s[..|s|]) == Shared(protocols, caps)
  {
    assert s[..|s|] == s;
    assert forall c :: c in caps <==> c in multiset(caps);
    assert forall c :: c in s <==> c in multiset(s);
  }

  lemma OneOfEachName(a: seq<Cap>, k: nat, m: nat)
    requires Ascending(a) && k < |a| && m < |a| && a[k].name == a[m].name
    ensures k == m
  {
    hide NameLess;
    NameLessIrreflexive(a[k].name);
  }

  lemma CoverOf(a: seq<Cap>, shared: set<Cap>, c: Cap) returns (j: nat)
    requires Best(a, shared) && c in shared
    ensures j < |a| && a[j].name == c.name && a[j].version >= c.version && a[j] in shared
  {
    hide Ascending;
    assert Covered(a, c);
    j :| 0 <= j < |a| && a[j].name == c.name && a[j].version >= c.version;
  }

  lemma BestWithin(a: seq<Cap>, b: seq<Cap>, shared: set<Cap>, k: nat)
    requires Best(a, shared) && Best(b, shared) && k < |a| && a[k] in shared
    ensures a[k] in b
  {
    hide Best;
    var j := CoverOf(b, shared, a[k]);
    var m := CoverOf(a, shared, b[j]);
    BestAscending(a, shared);
    OneOfEachName(a, k, m);
  }

  lemma {:induction false} SameAscending(a: seq<Cap>, b: seq<Cap>)
    requires Ascending(a) && Ascending(b) && forall c :: c in a <==> c in b
    ensures a == b
    decreases |a|
  {
    if |a| + |b| > 0 {
      SameLast(a, b);
      var a', b' := a[..|a| - 1], b[..|b| - 1];
      forall c ensures c in a' <==> c in b' {
        InitOnly(a, c);
        InitOnly(b, c);
      }
      SameAscending(a', b');
      assert a == a' + [a[|a| - 1]] && b == b' + [b[|b| - 1]];
    }
  }

  lemma InitOnly(a: seq<Cap>, c: Cap)
    requires Ascending(a) && a != []
    ensures c in a[..|a| - 1] <==> c in a && c != a[|a| - 1]
  {
    hide NameLess;
    NameLessIrreflexive(c.name);
    assert a == a[..|a| - 1] + [a[|a| - 1]];
  }

  lemma SameLast(a: seq<Cap>, b: seq<Cap>)
    requires Ascending(a) && Ascending(b) && |a| + |b| > 0 && forall c :: c in a <==> c in b
    ensures a != [] && b != [] && a[|a| - 1] == b[|b| - 1]
  {
    hide NameLess;
    if a != [] { assert a[|a| - 1] in b; }
    if b != [] { assert b[|b| - 1] in a; }
    NameLessTotal(a[|a| - 1].name, b[|b| - 1].name);
  }

  /** The set of shared capabilities determines the order and the versions. */
  lemma BestUnique(a: seq<Cap>, b: seq<Cap>, shared: set<Cap>)
    requires Best(a, shared) && Best(b, shared)
    ensures a == b
  {
    hide Covered, Ascending;
    forall c ensures c in a <==> c in b {
      if c in a { var k :| 0 <= k < |a| && a[k] == c; BestWithin(a, b, shared, k); }
      if c in b { var k :| 0 <= k < |b| && b[k] == c; BestWithin(b, a, shared, k); }
    }
    SameAscending(a, b);
  }

  /** What a peer announces in its handshake. */
  function CapsOf(protocols: seq<Protocol>): seq<Cap> {
    seq(|protocols|, i requires 0 <= i < |protocols| => protocols[i].cap)
  }

  lemma SharedBoth(pa: seq<Protocol>, pb: seq<Protocol>)
    ensures Shared(pa, CapsOf(pb)) == Shared(pb, CapsOf(pa))
  {
    forall c ensures c in CapsOf(pa) <==> Find(pa, c).Some? { InCaps(pa, c); }
    forall c ensures c in CapsOf(pb) <==> Find(pb, c).Some? { InCaps(pb, c); }
  }

  lemma InCaps(p: seq<Protocol>, c: Cap)
    ensures c in CapsOf(p) <==> Find(p, c).Some?
  {
    if c in CapsOf(p) {
      var i :| 0 <= i < |p| && CapsOf(p)[i] == c;
      assert p[i] in p;
    }
    if Find(p, c).Some? {
      var i :| 0 <= i < |p| && p[i] == Find(p, c).value;
      assert CapsOf(p)[i] == c;
    }
  }

  /** Both sides give every version of every protocol they share the same number of codes. */
  ghost predicate SameLengths(pa: seq<Protocol>, pb: seq<Protocol>) {
    forall c :: Find(pa, c).Some? && Find(pb, c).Some? ==> Find(pa, c).value.length == Find(pb, c).value.length
  }

  lemma {:induction false} TotalAgrees(pa: seq<Protocol>, pb: seq<Protocol>, bs: seq<Cap>)
    requires SameLengths(pa, pb) && forall k :: 0 <= k < |bs| ==> Find(pa, bs[k]).Some? && Find(pb, bs[k]).Some?
    ensures Total(pa, bs) == Total(pb, bs)
    decreases |bs|
  {
    if bs != [] { TotalAgrees(pa, pb, bs[..|bs| - 1]); }
  }

  /** The two sides run the same protocols under the same numbers. */
  lemma Agreement(pa: seq<Protocol>, pb: seq<Protocol>, ra: map<Name, Slot>, rb: map<Name, Slot>, name: Name)
    requires Matched(pa, CapsOf(pb), ra) && Matched(pb, CapsOf(pa), rb) && SameLengths(pa, pb)
    ensures name in ra <==> name in rb
    ensures name in ra ==> ra[name].offset == rb[name].offset && ra[name].proto.cap == rb[name].proto.cap &&
                           ra[name].proto.length == rb[name].proto.length
  {
    hide Best, Laid, Find, Total;
    var ca :| Best(ca, Shared(pa, CapsOf(pb))) && Laid(pa, ra, ca);
    var cb :| Best(cb, Shared(pb, CapsOf(pa))) && Laid(pb, rb, cb);
    SameLayout(pa, pb, ra, rb, ca, cb, name);
  }

  lemma SameLayout(pa: seq<Protocol>, pb: seq<Protocol>, ra: map<Name, Slot>, rb: map<Name, Slot>,
                   ca: seq<Cap>, cb: seq<Cap>, name: Name)
    requires Best(ca, Shared(pa, CapsOf(pb))) && Laid(pa, ra, ca)
    requires Best(cb, Shared(pb, CapsOf(pa))) && Laid(pb, rb, cb)
    requires SameLengths(pa, pb)
    ensures name in ra <==> name in rb
    ensures name in ra ==> ra[name].offset == rb[name].offset && ra[name].proto.cap == rb[name].proto.cap &&
                           ra[name].proto.length == rb[name].proto.length
    ensures ca == cb && Total(pa, ca) == Total(pb, cb)
  {
    hide Find, Total, Ascending, Covered;
    SharedBoth(pa, pb);
    BestUnique(ca, cb, Shared(pa, CapsOf(pb)));
    TotalAgrees(pa, pb, ca);
    if name in ra {
      var k :| 0 <= k < |ca| && ca[k].name == name;
      assert Assigned(pa, ra, ca, k) && Assigned(pb, rb, cb, k);
      TotalAgrees(pa, pb, ca[..k]);
    }
  }

  /** The highest version both sides have is the one that runs. */
  lemma HighestWins(protocols: seq<Protocol>, caps: seq<Cap>, result: map<Name, Slot>, name: Name)
    requires Matched(protocols, caps, result)
    ensures name in result <==> exists c :: c in Shared(protocols, caps) && c.name == name
    ensures name in result ==> result[name].proto in protocols && result[name].proto.cap in caps
    ensures name in result ==> forall c <- Shared(protocols, caps) | c.name == name ::
                                 c.version <= result[name].proto.cap.version
    ensures name in result <==> exists p :: p in protocols && p.cap in caps && p.cap.name == name
    ensures name in result ==> result[name].proto.cap.name == name
    ensures name in result ==> forall p <- protocols | p.cap in caps && p.cap.name == name ::
                                 p.cap.version <= result[name].proto.cap.version
  {
    hide NameLess, Total;
    forall p <- protocols | p.cap in caps ensures p.cap in Shared(protocols, caps) {}
    var bs: seq<Cap> :| Best(bs, Shared(protocols, caps)) && Laid(protocols, result, bs);
    if name in result {
      var k :| 0 <= k < |bs| && bs[k].name == name;
      assert Assigned(protocols, result, bs, k) && bs[k] in Shared(protocols, caps);
      forall c <- Shared(protocols, caps) | c.name == name ensures c.version <= bs[k].version {
        assert Covered(bs, c);
        NameLessIrreflexive(name);
      }
    }
    forall c <- Shared(protocols, caps) | c.name == name ensures name in result {
      assert Covered(bs, c);
    }
  }

  /** The lengths of the running protocols with these names, together. */
  ghost function Lengths(running: map<Name, Slot>, names: set<Name>): nat
    requires names <= running.Keys
  {
    if names == {} then 0
    else
      var n :| n in names;
      running[n].proto.length + Lengths(running, names - {n})
  }

  lemma {:induction false} LengthsAny(running: map<Name, Slot>, names: set<Name>, n: Name)
    requires names <= running.Keys && n in names
    ensures Lengths(running, names) == running[n].proto.length + Lengths(running, names - {n})
    decreases |names|
  {
    var m :| m in names && Lengths(running, names) == running[m].proto.length + Lengths(running, names - {m});
    if m != n {
      LengthsAny(running, names - {m}, n);
      LengthsAny(running, names - {n}, m);
      assert names - {m} - {n} == names - {n} - {m};
    }
  }

  ghost function NamesOf(bs: seq<Cap>): set<Name> {
    set c | c in bs :: c.name
  }

  lemma {:induction false} TotalIsLengths(protocols: seq<Protocol>, result: map<Name, Slot>, bs: seq<Cap>, k: nat)
    requires Laid(protocols, result, bs) && Ascending(bs) && k <= |bs|
    ensures NamesOf(bs[..k]) <= result.Keys
    ensures Total(protocols, bs[..k]) == BASE_PROTOCOL_LENGTH + Lengths(result, NamesOf(bs[..k]))
    decreases k
  {
    hide Total, Ascending, Laid;
    if k == 0 {
      NothingMatched(protocols, bs);
    } else {
      var c, before := bs[k - 1], NamesOf(bs[..k - 1]);
      TotalIsLengths(protocols, result, bs, k - 1);
      SlotEnd(protocols, result, bs, k - 1);
      NamesMore(bs, k - 1);
      assert NamesOf(bs[..k]) - {c.name} == before;
      LengthsAny(result, NamesOf(bs[..k]), c.name);
    }
  }

  lemma NamesMore(bs: seq<Cap>, k: nat)
    requires Ascending(bs) && k < |bs|
    ensures NamesOf(bs[..k + 1]) == NamesOf(bs[..k]) + {bs[k].name} && bs[k].name !in NamesOf(bs[..k])
  {
    hide NameLess;
    assert bs[..k + 1] == bs[..k] + [bs[k]];
    NameLessIrreflexive(bs[k].name);
  }

  lemma NamesBefore(protocols: seq<Protocol>, result: map<Name, Slot>, bs: seq<Cap>, k: nat)
    requires Laid(protocols, result, bs) && Ascending(bs) && k < |bs|
    ensures NamesOf(bs[..k]) == set n | n in result && Smaller(n, bs[k].name)
  {
    hide NameLess, Smaller, Assigned;
    forall n ensures n in NamesOf(bs[..k]) <==> n in result && Smaller(n, bs[k].name) {
      NameOrder(n, bs[k].name);
      if n in NamesOf(bs[..k]) {
        var j :| 0 <= j < k && bs[j].name == n;
      }
      if n in result && NameLess(n, bs[k].name) {
        var j :| 0 <= j < |bs| && bs[j].name == n;
        NameLessTotal(n, bs[k].name);
        NameLessIrreflexive(n);
        assert bs[..k][j] == bs[j];
      }
    }
  }

  /** Each protocol's codes begin behind the base protocol and behind the codes of exactly those running
      protocols whose name is smaller, in 64-bit arithmetic. */
  lemma OffsetExactly(protocols: seq<Protocol>, caps: seq<Cap>, result: map<Name, Slot>, name: Name)
    requires Matched(protocols, caps, result) && name in result
    ensures var before := set n | n in result && Smaller(n, name);
            result[name].offset == (16 + Lengths(result, before)) % TWO64
  {
    hide Total, Smaller, NameLess, Covered;
    var bs: seq<Cap> :| Best(bs, Shared(protocols, caps)) && Laid(protocols, result, bs);
    var k :| 0 <= k < |bs| && bs[k].name == name;
    SlotEnd(protocols, result, bs, k);
    TotalIsLengths(protocols, result, bs, k);
    NamesBefore(protocols, result, bs, k);
  }

  predicate Accepts(slot: Slot, code: u64) {
    slot.offset <= code < (slot.offset + slot.proto.length) % TWO64
  }

  /** The protocol responsible for a code; the running protocols are visited in no particular order. */
  method GetProto(running: map<Name, Slot>, code: u64) returns (name: Option<Name>)
    ensures name.None? <==> forall n <- running :: !Accepts(running[n], code)
    ensures name.Some? ==> name.value in running && Accepts(running[name.value], code)
  {
    var left := running.Keys;
    while left != {}
      invariant left <= running.Keys
      invariant forall n <- running | n !in left :: !Accepts(running[n], code)
    {
      var n :| n in left;
      if Accepts(running[n], code) { return Some(n); }
      left := left - {n};
    }
    return None;
  }

  /** The code that goes on the wire, if the protocol has such a message. */
  function WriteCode(slot: Slot, code: u64): Option<u64> {
    if code >= slot.proto.length then None else Some((code + slot.offset) % TWO64)
  }

  function ReadCode(slot: Slot, wire: u64): u64 {
    (wire - slot.offset) % TWO64
  }

  /** Every message of every running protocol is taken by that protocol and by no other. */
  ghost predicate RoutesAll(running: map<Name, Slot>) {
    forall name <- running, code: u64 | code < running[name].proto.length :: Routed(running, name, code)
  }

  ghost predicate Routed(running: map<Name, Slot>, name: Name, code: u64)
    requires name in running
  {
    forall n <- running :: Accepts(running[n], (code + running[name].offset) % TWO64) <==> n == name
  }

  lemma {:induction false} TotalGrows(protocols: seq<Protocol>, bs: seq<Cap>, k: nat)
    requires k <= |bs|
    ensures BASE_PROTOCOL_LENGTH <= Total(protocols, bs[..k]) <= Total(protocols, bs)
    decreases |bs|
  {
    if k == |bs| {
      assert bs[..k] == bs;
      if bs != [] { TotalGrows(protocols, bs[..|bs| - 1], 0); }
    } else {
      TotalGrows(protocols, bs[..|bs| - 1], k);
      assert bs[..|bs| - 1][..k] == bs[..k];
    }
  }

  lemma SlotEnd(protocols: seq<Protocol>, result: map<Name, Slot>, bs: seq<Cap>, k: nat)
    requires Laid(protocols, result, bs) && k < |bs|
    ensures bs[k].name in result
    ensures Total(protocols, bs[..k + 1]) == Total(protocols, bs[..k]) + result[bs[k].name].proto.length
    ensures result[bs[k].name].offset == Total(protocols, bs[..k]) % TWO64
  {
    hide Find;
    assert Assigned(protocols, result, bs, k);
    TotalAppend(protocols, bs[..k], bs[k]);
    assert bs[..k + 1] == bs[..k] + [bs[k]];
  }

  /** Without overflow the ranges follow one another, so each code is one protocol's alone. */
  lemma RoutedWithoutOverflow(protocols: seq<Protocol>, result: map<Name, Slot>, bs: seq<Cap>, k: nat, j: nat,
                              code: u64)
    requires Laid(protocols, result, bs) && Total(protocols, bs) < TWO64 && k < |bs| && j < |bs|
    requires bs[k].name in result && code < result[bs[k].name].proto.length
    ensures bs[j].name in result && result[bs[k].name].offset + code < TWO64
    ensures Accepts(result[bs[j].name], (code + result[bs[k].name].offset) % TWO64) <==> j == k
    ensures result[bs[k].name].offset >= BASE_PROTOCOL_LENGTH
  {
    hide Total, Laid, Accepts;
    SlotEnd(protocols, result, bs, k);
    SlotEnd(protocols, result, bs, j);
    Consecutive(protocols, bs, k, j);
    Consecutive(protocols, bs, j, k);
    InRange(Total(protocols, bs[..k]), result[bs[k].name], code, Total(protocols, bs[..j]), result[bs[j].name]);
  }

  lemma Consecutive(protocols: seq<Protocol>, bs: seq<Cap>, k: nat, j: nat)
    requires k < |bs| && j < |bs|
    ensures BASE_PROTOCOL_LENGTH <= Total(protocols, bs[..k]) <= Total(protocols, bs[..k + 1]) <= Total(protocols, bs)
    ensures k < j ==> Total(protocols, bs[..k + 1]) <= Total(protocols, bs[..j])
  {
    hide Total;
    TotalGrows(protocols, bs, k + 1);
    TotalGrows(protocols, bs[..k + 1], k);
    assert bs[..k + 1][..k] == bs[..k];
    if k < j {
      TotalGrows(protocols, bs[..j], k + 1);
      assert bs[..j][..k + 1] == bs[..k + 1];
    }
  }

  lemma InRange(k: nat, sk: Slot, code: u64, j: nat, sj: Slot)
    requires sk.offset == k % TWO64 && sj.offset == j % TWO64 && code < sk.proto.length
    requires k + sk.proto.length < TWO64 && j + sj.proto.length < TWO64
    requires sk == sj || k + sk.proto.length <= j || j + sj.proto.length <= k
    ensures k + code < TWO64 && sk.offset == k
    ensures Accepts(sj, (code + sk.offset) % TWO64) <==> j <= k + code < j + sj.proto.length
  {
    assert k % TWO64 == k && j % TWO64 == j;
  }

  lemma RoutedOne(protocols: seq<Protocol>, result: map<Name, Slot>, bs: seq<Cap>, name: Name, code: u64)
    requires Laid(protocols, result, bs) && Ascending(bs) && Total(protocols, bs) < TWO64
    requires name in result && code < result[name].proto.length
    ensures Routed(result, name, code)
  {
    hide Total, Assigned, Ascending, Accepts;
    var k :| 0 <= k < |bs| && bs[k].name == name;
    forall n <- result ensures Accepts(result[n], (code + result[name].offset) % TWO64) <==> n == name {
      var j :| 0 <= j < |bs| && bs[j].name == n;
      RoutedWithoutOverflow(protocols, result, bs, k, j, code);
      if n == name { OneOfEachName(bs, j, k); }
    }
  }

  /** The first match whose range runs over the end of the 64-bit codes cannot be reached. */
  lemma {:induction false} Overflowing(protocols: seq<Protocol>, result: map<Name, Slot>, bs: seq<Cap>, n: nat)
    returns (k: nat)
    requires Laid(protocols, result, bs) && n <= |bs| && Total(protocols, bs[..n]) >= TWO64
    ensures k < |bs| && bs[k].name in result && result[bs[k].name].proto.length > 0
    ensures !Accepts(result[bs[k].name], result[bs[k].name].offset)
  {
    hide Total, Laid;
    if n == 0 {
      TotalGrows(protocols, bs[..0], 0);
      NothingMatched(protocols, bs);
    } else if Total(protocols, bs[..n - 1]) >= TWO64 {
      k := Overflowing(protocols, result, bs, n - 1);
    } else {
      k := n - 1;
      SlotEnd(protocols, result, bs, k);
    }
  }

  lemma NothingMatched(protocols: seq<Protocol>, bs: seq<Cap>)
    ensures Total(protocols, bs[..0]) == BASE_PROTOCOL_LENGTH
  {
  }

  lemma LayoutRoutes(protocols: seq<Protocol>, result: map<Name, Slot>, bs: seq<Cap>)
    requires Laid(protocols, result, bs) && Ascending(bs)
    ensures RoutesAll(result) <==> Total(protocols, bs) < TWO64
  {
    hide Total, Laid, Ascending, Accepts;
    if Total(protocols, bs) < TWO64 {
      hide Routed;
      forall name <- result, code: u64 | code < result[name].proto.length ensures Routed(result, name, code) {
        RoutedOne(protocols, result, bs, name, code);
      }
    } else {
      assert bs[..|bs|] == bs;
      var k := Overflowing(protocols, result, bs, |bs|);
      assert !Routed(result, bs[k].name, 0);
    }
  }

  /** Routing is right for all messages exactly when the assigned codes fit into 64 bits. */
  lemma RoutingExact(protocols: seq<Protocol>, caps: seq<Cap>, result: map<Name, Slot>)
    requires Matched(protocols, caps, result)
    ensures RoutesAll(result) <==> Numbered(protocols, caps)
  {
    hide Best, Laid, Total, RoutesAll;
    var shared := Shared(protocols, caps);
    var bs :| Best(bs, shared) && Laid(protocols, result, bs);
    BestAscending(bs, shared);
    LayoutRoutes(protocols, result, bs);
    forall cs | Best(cs, shared) ensures cs == bs {
      BestUnique(cs, bs, shared);
    }
  }

  /** All assigned codes fit into 64 bits. */
  ghost predicate Numbered(protocols: seq<Protocol>, caps: seq<Cap>) {
    forall bs :: Best(bs, Shared(protocols, caps)) ==> Total(protocols, bs) < TWO64
  }

  /** That is, base protocol and running protocols together have fewer than 2^64 codes. */
  lemma NumberedIs(protocols: seq<Protocol>, caps: seq<Cap>, result: map<Name, Slot>)
    requires Matched(protocols, caps, result)
    ensures Numbered(protocols, caps) <==> 16 + Lengths(result, result.Keys) < TWO64
  {
    hide Total, NameLess, Covered, Assigned, Ascending, Lengths;
    var shared := Shared(protocols, caps);
    var bs: seq<Cap> :| Best(bs, shared) && Laid(protocols, result, bs);
    TotalIsLengths(protocols, result, bs, |bs|);
    assert bs[..|bs|] == bs && NamesOf(bs) == result.Keys;
    forall cs | Best(cs, shared) ensures cs == bs {
      BestUnique(cs, bs, shared);
    }
  }

  /** A message written on one side arrives at the same protocol on the other, with the same code. */
  lemma EndToEnd(pa: seq<Protocol>, pb: seq<Protocol>, ra: map<Name, Slot>, rb: map<Name, Slot>, name: Name, code: u64)
    requires Matched(pa, CapsOf(pb), ra) && Matched(pb, CapsOf(pa), rb) && SameLengths(pa, pb)
    requires Numbered(pa, CapsOf(pb)) && name in ra && WriteCode(ra[name], code).Some?
    ensures var wire := WriteCode(ra[name], code).value;
            name in rb && ReadCode(rb[name], wire) == code && wire >= BASE_PROTOCOL_LENGTH &&
            forall n <- rb :: Accepts(rb[n], wire) <==> n == name
  {
    hide Best, Laid, Total;
    var ca :| Best(ca, Shared(pa, CapsOf(pb))) && Laid(pa, ra, ca);
    var cb :| Best(cb, Shared(pb, CapsOf(pa))) && Laid(pb, rb, cb);
    SameLayout(pa, pb, ra, rb, ca, cb, name);
    BestAscending(cb, Shared(pb, CapsOf(pa)));
    RoutedOne(pb, rb, cb, name, code);
    SlotAbove(pb, rb, cb, name, code);
  }

  lemma SlotAbove(protocols: seq<Protocol>, result: map<Name, Slot>, bs: seq<Cap>, name: Name, code: u64)
    requires Laid(protocols, result, bs) && Total(protocols, bs) < TWO64
    requires name in result && code < result[name].proto.length
    ensures result[name].offset >= BASE_PROTOCOL_LENGTH && result[name].offset + code < TWO64
  {
    hide Total, Assigned, Accepts;
    var k :| 0 <= k < |bs| && bs[k].name == name;
    RoutedWithoutOverflow(protocols, result, bs, k, k, code);
  }

  /** The positions, in the first n capabilities and for the last of these in the first m protocols, where
      capability and protocol match. */
  ghost function Pairs(protocols: seq<Protocol>, caps: seq<Cap>, n: nat, m: nat): set<(nat, nat)>
    requires n <= |caps| && m <= |protocols|
  {
    set i: nat, j: nat | i < n && j < |protocols| && (i < n - 1 || j < m) && protocols[j].cap == caps[i] :: (i, j)
  }

  lemma PairsNext(protocols: seq<Protocol>, caps: seq<Cap>, n: nat, m: nat)
    requires 0 < n <= |caps| && m < |protocols|
    ensures var more := Pairs(protocols, caps, n, m + 1);
            if protocols[m].cap == caps[n - 1]
            then more == Pairs(protocols, caps, n, m) + {(n - 1, m)} && (n - 1, m) !in Pairs(protocols, caps, n, m)
            else more == Pairs(protocols, caps, n, m)
  {
  }

  lemma PairsRow(protocols: seq<Protocol>, caps: seq<Cap>, n: nat)
    requires n < |caps|
    ensures Pairs(protocols, caps, n + 1, 0) == Pairs(protocols, caps, n, |protocols|)
  {
  }

  lemma NoPairs(protocols: seq<Protocol>, caps: seq<Cap>)
    ensures Pairs(protocols, caps, 0, |protocols|) == {}
    ensures Pairs(protocols, caps, |caps|, |protocols|) == {} <==> Shared(protocols, caps) == {}
  {
    hide Find;
    var all := Pairs(protocols, caps, |caps|, |protocols|);
    forall c | c in Shared(protocols, caps) ensures all != {} {
      var i: nat :| i < |caps| && caps[i] == c;
      var j: nat :| j < |protocols| && protocols[j] == Find(protocols, c).value;
      assert (i, j) in all;
    }
    forall p | p in all ensures caps[p.0] in Shared(protocols, caps) {
      assert protocols[p.1] in protocols;
    }
  }

  /** How many pairs of a capability and a protocol match: none exactly when nothing is shared. */
  method CountMatching(protocols: seq<Protocol>, caps: seq<Cap>) returns (n: nat)
    ensures n == |Pairs(protocols, caps, |caps|, |protocols|)|
    ensures n == 0 <==> Shared(protocols, caps) == {}
  {
    hide Find, Pairs, Shared;
    NoPairs(protocols, caps);
    n := 0;
    for i := 0 to |caps|
      invariant n == |Pairs(protocols, caps, i, |protocols|)|
    {
      PairsRow(protocols, caps, i);
      for j := 0 to |protocols|
        invariant n == |Pairs(protocols, caps, i + 1, j)|
      {
        PairsNext(protocols, caps, i + 1, j);
        if protocols[j].cap == caps[i] { n := n + 1; }
      }
    }
  }
}

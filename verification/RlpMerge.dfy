/** The deferred headers of rlp/encbuffer.go, on values: the encoder keeps all string data in one
    buffer and the list headers on the side, with a size that is only finished when the list is
    closed. This module says what such a buffer stands for and what one step does to it; it holds
    for any header format `hd`, a function from the content size to the header bytes. */
module RlpMerge {
  import opened Bytes

  type HeadFn = nat -> seq<u8>

  datatype ListHead = ListHead(offset: nat, size: nat)

  // ---- Merging headers into the string data ----

  /** Headers lie in order between two positions of the string data. */
  predicate Ordered(hs: seq<ListHead>, lo: nat, hi: nat)
  {
    if hs == [] then lo <= hi else lo <= hs[0].offset && Ordered(hs[1..], hs[0].offset, hi)
  }

  function HeadSum(hd: HeadFn, hs: seq<ListHead>): nat
  {
    if hs == [] then 0 else |hd(hs[0].size)| + HeadSum(hd, hs[1..])
  }

  lemma {:induction false} OrderedRange(hs: seq<ListHead>, lo: nat, hi: nat)
    requires Ordered(hs, lo, hi)
    ensures lo <= hi && (hs != [] ==> hs[0].offset <= hi)
  {
    if hs != [] { OrderedRange(hs[1..], hs[0].offset, hi); }
  }

  /** The encoder output for str[lo..hi] with the headers hs put in. */
  function Merge(hd: HeadFn, str: seq<u8>, hs: seq<ListHead>, lo: nat, hi: nat): (out: seq<u8>)
    requires Ordered(hs, lo, hi) && hi <= |str|
    ensures |out| == hi - lo + HeadSum(hd, hs)
  {
    OrderedRange(hs, lo, hi);
    if hs == [] then str[lo..hi]
    else str[lo..hs[0].offset] + hd(hs[0].size) + Merge(hd, str, hs[1..], hs[0].offset, hi)
  }

  lemma {:induction false} HeadsSplit(hd: HeadFn, a: seq<ListHead>, h: ListHead, c: seq<ListHead>, lo: nat, hi: nat)
    requires Ordered(a, lo, h.offset) && Ordered(c, h.offset, hi)
    ensures Ordered(a + [h] + c, lo, hi)
    ensures HeadSum(hd, a + [h] + c) == HeadSum(hd, a) + |hd(h.size)| + HeadSum(hd, c)
  {
    var all := a + [h] + c;
    if a == [] {
      assert all[1..] == c;
    } else {
      HeadsSplit(hd, a[1..], h, c, a[0].offset, hi);
      assert all[1..] == a[1..] + [h] + c;
    }
  }

  lemma Regroup(a: seq<u8>, b: seq<u8>, c: seq<u8>, d: seq<u8>)
    ensures a + (b + c + d) == (a + b) + c + d
  {}

  /** Merging one header at a time. */
  lemma MergeCons(hd: HeadFn, str: seq<u8>, h: ListHead, hs: seq<ListHead>, lo: nat, hi: nat)
    requires lo <= h.offset <= hi <= |str| && Ordered(hs, h.offset, hi)
    ensures Ordered([h] + hs, lo, hi)
    ensures Merge(hd, str, [h] + hs, lo, hi) == str[lo..h.offset] + hd(h.size) + Merge(hd, str, hs, h.offset, hi)
  {
    assert ([h] + hs)[1..] == hs;
  }

  lemma OrderedWithin(c: seq<ListHead>, lo: nat, hi: nat, below: nat)
    requires Ordered(c, lo, hi) && Ordered([], below, lo)
    ensures below <= lo <= hi
  {
    OrderedRange(c, lo, hi);
  }

  lemma MergeNil(hd: HeadFn, str: seq<u8>, lo: nat, hi: nat)
    requires lo <= hi <= |str|
    ensures Merge(hd, str, [], lo, hi) == str[lo..hi]
  {
  }

  lemma MergeFirst(hd: HeadFn, str: seq<u8>, hs: seq<ListHead>, lo: nat, hi: nat)
    requires hs != [] && Ordered(hs, lo, hi) && hi <= |str|
    ensures lo <= hs[0].offset <= hi && Ordered(hs[1..], hs[0].offset, hi)
    ensures Merge(hd, str, hs, lo, hi)
            == str[lo..hs[0].offset] + hd(hs[0].size) + Merge(hd, str, hs[1..], hs[0].offset, hi)
  {
    OrderedRange(hs, lo, hi);
  }

  /** Cutting a merge at one of its headers. */
  lemma {:induction false} MergeSplit(hd: HeadFn, str: seq<u8>, a: seq<ListHead>, h: ListHead, c: seq<ListHead>,
                                      lo: nat, hi: nat)
    requires Ordered(a, lo, h.offset) && Ordered(c, h.offset, hi) && h.offset <= hi <= |str|
    ensures Ordered(a + [h] + c, lo, hi)
    ensures Merge(hd, str, a + [h] + c, lo, hi)
            == Merge(hd, str, a, lo, h.offset) + hd(h.size) + Merge(hd, str, c, h.offset, hi)
  {
    hide Merge, Ordered;
    if a == [] {
      assert a + [h] + c == [h] + c;
      OrderedWithin(c, h.offset, hi, lo);
      MergeCons(hd, str, h, c, lo, hi);
      MergeNil(hd, str, lo, h.offset);
    } else {
      MergeFirst(hd, str, a, lo, h.offset);
      MergeSplit(hd, str, a[1..], h, c, a[0].offset, hi);
      var tail := a[1..] + [h] + c;
      assert a + [h] + c == [a[0]] + tail;
      MergeCons(hd, str, a[0], tail, lo, hi);
      Regroup(str[lo..a[0].offset] + hd(a[0].size), Merge(hd, str, a[1..], a[0].offset, h.offset),
              hd(h.size), Merge(hd, str, c, h.offset, hi));
    }
  }

  /** Appending string data only extends the last segment. */
  lemma {:induction false} MergeAppend(hd: HeadFn, str: seq<u8>, b: seq<u8>, hs: seq<ListHead>, lo: nat)
    requires Ordered(hs, lo, |str|)
    ensures Ordered(hs, lo, |str + b|)
    ensures Merge(hd, str + b, hs, lo, |str + b|) == Merge(hd, str, hs, lo, |str|) + b
  {
    hide Merge;
    OrderedRange(hs, lo, |str|);
    if hs == [] {
      MergeNil(hd, str, lo, |str|);
      MergeNil(hd, str + b, lo, |str + b|);
      assert (str + b)[lo..|str + b|] == str[lo..|str|] + b;
    } else {
      MergeFirst(hd, str, hs, lo, |str|);
      MergeAppend(hd, str, b, hs[1..], hs[0].offset);
      MergeFirst(hd, str + b, hs, lo, |str + b|);
      assert (str + b)[lo..hs[0].offset] == str[lo..hs[0].offset];
      Regroup(str[lo..hs[0].offset] + hd(hs[0].size), Merge(hd, str, hs[1..], hs[0].offset, |str|), b, []);
    }
  }

  lemma {:induction false} MergeFrame(hd: HeadFn, str: seq<u8>, b: seq<u8>, hs: seq<ListHead>, lo: nat, hi: nat)
    requires Ordered(hs, lo, hi) && hi <= |str|
    ensures Merge(hd, str + b, hs, lo, hi) == Merge(hd, str, hs, lo, hi)
  {
    hide Merge;
    OrderedRange(hs, lo, hi);
    if hs == [] {
      MergeNil(hd, str, lo, hi);
      MergeNil(hd, str + b, lo, hi);
      assert (str + b)[lo..hi] == str[lo..hi];
    } else {
      MergeFirst(hd, str, hs, lo, hi);
      MergeFirst(hd, str + b, hs, lo, hi);
      MergeFrame(hd, str, b, hs[1..], hs[0].offset, hi);
      assert (str + b)[lo..hs[0].offset] == str[lo..hs[0].offset];
    }
  }

  // ---- The open lists ----

  /** `open` holds the indices of the headers whose lists are not closed yet. Every other header is
      finished; an open one still holds the header bytes that were finished before it. */
  ghost predicate WellFormed(hd: HeadFn, hs: seq<ListHead>, open: seq<nat>, end: nat)
    decreases |open|
  {
    if open == [] then Ordered(hs, 0, end)
    else
      var k := open[|open| - 1];
      k < |hs| &&
      Ordered(hs[k + 1..], hs[k].offset, end) &&
      WellFormed(hd, hs[..k], open[..|open| - 1], hs[k].offset) &&
      hs[k].size == Finished(hd, hs[..k], open[..|open| - 1])
  }

  /** Total length of the headers that are finished. */
  ghost function Finished(hd: HeadFn, hs: seq<ListHead>, open: seq<nat>): nat
    decreases |open|
  {
    if open == [] then HeadSum(hd, hs)
    else
      var k := open[|open| - 1];
      if k < |hs| then Finished(hd, hs[..k], open[..|open| - 1]) + HeadSum(hd, hs[k + 1..]) else 0
  }

  lemma WellFormedRange(hd: HeadFn, hs: seq<ListHead>, open: seq<nat>, end: nat)
    requires WellFormed(hd, hs, open, end)
    ensures open != [] ==> hs[open[|open| - 1]].offset <= end
  {
    if open != [] {
      var k := open[|open| - 1];
      OrderedRange(hs[k + 1..], hs[k].offset, end);
    }
  }

  /** What has been written into each open list so far, the outermost first. */
  ghost function Frames(hd: HeadFn, str: seq<u8>, hs: seq<ListHead>, open: seq<nat>, end: nat): (fs: seq<seq<u8>>)
    requires WellFormed(hd, hs, open, end) && end <= |str|
    ensures |fs| == |open| + 1
    decreases |open|
  {
    if open == [] then [Merge(hd, str, hs, 0, end)]
    else
      WellFormedRange(hd, hs, open, end);
      var k := open[|open| - 1];
      Frames(hd, str, hs[..k], open[..|open| - 1], hs[k].offset) + [Merge(hd, str, hs[k + 1..], hs[k].offset, end)]
  }

  ghost function Top(fs: seq<seq<u8>>): seq<u8>
    requires fs != []
  {
    fs[|fs| - 1]
  }

  ghost function Below(fs: seq<seq<u8>>): seq<seq<u8>>
    requires fs != []
  {
    fs[..|fs| - 1]
  }

  /** Writing into the innermost list. */
  ghost function Appended(fs: seq<seq<u8>>, b: seq<u8>): seq<seq<u8>>
    requires fs != []
  {
    Below(fs) + [Top(fs) + b]
  }

  lemma AppendedTwice(fs: seq<seq<u8>>, a: seq<u8>, b: seq<u8>)
    requires fs != []
    ensures Appended(Appended(fs, a), b) == Appended(fs, a + b)
    ensures Total(Appended(fs, a)) == Total(fs) + |a|
  {
    var g := Appended(fs, a);
    assert Below(g) == Below(fs) && Top(g) == Top(fs) + a;
    assert Top(fs) + a + b == Top(fs) + (a + b);
  }

  lemma AppendedNone(fs: seq<seq<u8>>)
    requires fs != []
    ensures Appended(fs, []) == fs
  {
    assert Top(fs) + [] == Top(fs);
  }

  /** Closing the innermost list: its header and content go to the end of the enclosing one. */
  ghost function Closed(hd: HeadFn, fs: seq<seq<u8>>): seq<seq<u8>>
    requires |fs| >= 2
  {
    Below(Below(fs)) + [Top(Below(fs)) + hd(|Top(fs)|) + Top(fs)]
  }

  lemma {:induction false} FramesStable(hd: HeadFn, str: seq<u8>, b: seq<u8>, hs: seq<ListHead>, open: seq<nat>,
                                        end: nat)
    requires WellFormed(hd, hs, open, end) && end <= |str|
    ensures Frames(hd, str + b, hs, open, end) == Frames(hd, str, hs, open, end)
    decreases |open|
  {
    if open == [] {
      MergeFrame(hd, str, b, hs, 0, end);
    } else {
      var k := open[|open| - 1];
      WellFormedRange(hd, hs, open, end);
      FramesStable(hd, str, b, hs[..k], open[..|open| - 1], hs[k].offset);
      MergeFrame(hd, str, b, hs[k + 1..], hs[k].offset, end);
    }
  }

  /** Writing string data appends to the innermost open list and to nothing else. */
  lemma AppendStep(hd: HeadFn, str: seq<u8>, b: seq<u8>, hs: seq<ListHead>, open: seq<nat>)
    requires WellFormed(hd, hs, open, |str|)
    ensures WellFormed(hd, hs, open, |str + b|)
    ensures var fs := Frames(hd, str, hs, open, |str|);
            Frames(hd, str + b, hs, open, |str + b|) == Appended(fs, b)
  {
    if open == [] {
      MergeAppend(hd, str, b, hs, 0);
    } else {
      var k := open[|open| - 1];
      WellFormedRange(hd, hs, open, |str|);
      MergeAppend(hd, str, b, hs[k + 1..], hs[k].offset);
      FramesStable(hd, str, b, hs[..k], open[..|open| - 1], hs[k].offset);
    }
  }

  /** `list` opens an empty innermost list. */
  lemma OpenStep(hd: HeadFn, str: seq<u8>, hs: seq<ListHead>, open: seq<nat>)
    requires WellFormed(hd, hs, open, |str|)
    ensures var hs' := hs + [ListHead(|str|, Finished(hd, hs, open))];
            var open' := open + [|hs|];
            && WellFormed(hd, hs', open', |str|)
            && Finished(hd, hs', open') == Finished(hd, hs, open)
            && Frames(hd, str, hs', open', |str|) == Frames(hd, str, hs, open, |str|) + [[]]
  {
    var hs' := hs + [ListHead(|str|, Finished(hd, hs, open))];
    var open' := open + [|hs|];
    assert hs'[..|hs|] == hs && hs'[|hs| + 1..] == [];
    assert open'[..|open|] == open;
  }

  /** `listEnd` puts the innermost list, with its header, behind what precedes it one level up. */
  lemma Reattach(hd: HeadFn, str: seq<u8>, pre: seq<ListHead>, open: seq<nat>, h: ListHead, rest: seq<ListHead>)
    requires WellFormed(hd, pre, open, h.offset) && Ordered(rest, h.offset, |str|) && h.offset <= |str|
    ensures var hs := pre + [h] + rest;
            var fs := Frames(hd, str, pre, open, h.offset);
            && WellFormed(hd, hs, open, |str|)
            && Finished(hd, hs, open) == Finished(hd, pre, open) + |hd(h.size)| + HeadSum(hd, rest)
            && Frames(hd, str, hs, open, |str|)
               == Below(fs) + [Top(fs) + hd(h.size) + Merge(hd, str, rest, h.offset, |str|)]
  {
    hide Ordered, HeadSum, Merge;
    var hs := pre + [h] + rest;
    if open == [] {
      MergeSplit(hd, str, pre, h, rest, 0, |str|);
      HeadsSplit(hd, pre, h, rest, 0, |str|);
    } else {
      var j := open[|open| - 1];
      var tail := pre[j + 1..];
      assert hs[j + 1..] == tail + [h] + rest;
      assert hs[..j] == pre[..j];
      assert hs[j] == pre[j];
      WellFormedRange(hd, pre, open, h.offset);
      MergeSplit(hd, str, tail, h, rest, hs[j].offset, |str|);
      HeadsSplit(hd, tail, h, rest, hs[j].offset, |str|);
    }
  }

  /** The size `listEnd` computes is the exact length of the innermost content, inner headers
      included, although the header was opened with the header bytes finished until then. */
  lemma Innermost(hd: HeadFn, str: seq<u8>, hs: seq<ListHead>, open: seq<nat>)
    requires WellFormed(hd, hs, open, |str|) && open != []
    ensures var k := open[|open| - 1];
            && k < |hs| && hs[k].offset <= |str|
            && Ordered(hs[k + 1..], hs[k].offset, |str|)
            && WellFormed(hd, hs[..k], open[..|open| - 1], hs[k].offset)
            && var fs := Frames(hd, str, hs, open, |str|);
            && Below(fs) == Frames(hd, str, hs[..k], open[..|open| - 1], hs[k].offset)
            && Top(fs) == Merge(hd, str, hs[k + 1..], hs[k].offset, |str|)
            && |str| + Finished(hd, hs, open) - hs[k].offset - hs[k].size == |Top(fs)|
            && Finished(hd, hs, open) == Finished(hd, hs[..k], open[..|open| - 1]) + HeadSum(hd, hs[k + 1..])
  {
    WellFormedRange(hd, hs, open, |str|);
  }

  /** What `listEnd` does to the whole buffer. */
  lemma CloseStep(hd: HeadFn, str: seq<u8>, hs: seq<ListHead>, open: seq<nat>, k: nat, hs': seq<ListHead>)
    requires WellFormed(hd, hs, open, |str|) && open != [] && k == open[|open| - 1]
    requires var size := |Top(Frames(hd, str, hs, open, |str|))|;
             hs' == hs[..k] + [ListHead(hs[k].offset, size)] + hs[k + 1..]
    ensures var fs := Frames(hd, str, hs, open, |str|);
            var open' := open[..|open| - 1];
            && WellFormed(hd, hs', open', |str|)
            && Finished(hd, hs', open') == Finished(hd, hs, open) + |hd(|Top(fs)|)|
            && Frames(hd, str, hs', open', |str|) == Closed(hd, fs)
  {
    Innermost(hd, str, hs, open);
    var h := ListHead(hs[k].offset, |Top(Frames(hd, str, hs, open, |str|))|);
    Reattach(hd, str, hs[..k], open[..|open| - 1], h, hs[k + 1..]);
  }

  ghost function Total(fs: seq<seq<u8>>): nat
  {
    if fs == [] then 0 else Total(Below(fs)) + |Top(fs)|
  }

  /** `size()` counts every byte written so far, in all open lists together. */
  lemma {:induction false} FramesTotal(hd: HeadFn, str: seq<u8>, hs: seq<ListHead>, open: seq<nat>, end: nat)
    requires WellFormed(hd, hs, open, end) && end <= |str|
    ensures Total(Frames(hd, str, hs, open, end)) == end + Finished(hd, hs, open)
    decreases |open|
  {
    if open == [] {
      assert Below([Merge(hd, str, hs, 0, end)]) == [];
    } else {
      var k := open[|open| - 1];
      WellFormedRange(hd, hs, open, end);
      FramesTotal(hd, str, hs[..k], open[..|open| - 1], hs[k].offset);
      var outer := Frames(hd, str, hs[..k], open[..|open| - 1], hs[k].offset);
      assert Below(Frames(hd, str, hs, open, end)) == outer;
    }
  }
}

/** When a stored chain may go on under a changed fork schedule: params/config.go. */
module ChainConfig {
  import opened Options
  import opened Bytes

  /** Block numbers are big integers, and a fork may be unscheduled. */
  type Fork = Option<int>

  datatype ChainConfig = ChainConfig(
    chainId: Fork,
    homestead: Fork,
    daoFork: Fork,
    daoForkSupport: bool,
    eip150: Fork,
    eip155: Fork,
    eip158: Fork,
    byzantium: Fork,
    constantinople: Fork,
    petersburg: Fork,
    istanbul: Fork,
    muirGlacier: Fork,
    berlin: Fork,
    london: Fork,
    arrowGlacier: Fork,
    mergeFork: Fork,
    ramanujan: Fork,
    mirrorSync: Fork,
    bruno: Fork,
    euler: Fork,
    gibbs: Fork)

  /** Heights are 64-bit numbers. */
  type Height = x: nat | x < TWO64

  datatype CompatError = CompatError(what: string, stored: Fork, want: Fork, rewindTo: Height)

  predicate IsForked(s: Fork, head: int) {
    s.Some? && s.value <= head
  }

  predicate IsForkIncompatible(s1: Fork, s2: Fork, head: int) {
    (IsForked(s1, head) || IsForked(s2, head)) && s1 != s2
  }

  /** The earlier of two schedules. */
  function Earlier(stored: Fork, want: Fork): Fork {
    if stored.None? then want
    else if want.None? || stored.value < want.value then stored
    else want
  }

  /** To the block before the earlier schedule, but not below zero; its low 64 bits. */
  function NewCompatError(what: string, stored: Fork, want: Fork): CompatError {
    var rew := Earlier(stored, want);
    CompatError(what, stored, want, if rew.Some? && rew.value > 0 then (rew.value % TWO64 - 1) % TWO64 else 0)
  }

  /** One test of the comparison.  A flag counts once its fork is active; Petersburg may be set in the
      past if it equals Constantinople. */
  datatype Test =
    | ForkTest(what: string, stored: Fork, want: Fork)
    | FlagTest(what: string, stored: Fork, want: Fork, same: bool)
    | PetersburgTest(what: string, stored: Fork, want: Fork, constantinople: Fork)

  /** The tests in the order they are made, up to the chain identity. */
  function EarlyTests(c: ChainConfig, n: ChainConfig): (ts: seq<Test>)
    ensures |ts| == 7
  {
    [ ForkTest("Homestead fork block", c.homestead, n.homestead),
      ForkTest("DAO fork block", c.daoFork, n.daoFork),
      FlagTest("DAO fork support flag", c.daoFork, n.daoFork, c.daoForkSupport == n.daoForkSupport),
      ForkTest("EIP150 fork block", c.eip150, n.eip150),
      ForkTest("EIP155 fork block", c.eip155, n.eip155),
      ForkTest("EIP158 fork block", c.eip158, n.eip158),
      FlagTest("EIP158 chain ID", c.eip158, n.eip158, c.chainId == n.chainId) ]
  }

  /** From Byzantium to London. */
  function MiddleTests(c: ChainConfig, n: ChainConfig): (ts: seq<Test>)
    ensures |ts| == 7
  {
    [ ForkTest("Byzantium fork block", c.byzantium, n.byzantium),
      ForkTest("Constantinople fork block", c.constantinople, n.constantinople),
      PetersburgTest("Petersburg fork block", c.petersburg, n.petersburg, c.constantinople),
      ForkTest("Istanbul fork block", c.istanbul, n.istanbul),
      ForkTest("Muir Glacier fork block", c.muirGlacier, n.muirGlacier),
      ForkTest("Berlin fork block", c.berlin, n.berlin),
      ForkTest("London fork block", c.london, n.london) ]
  }

  /** The forks after that, and those of this chain. */
  function LateTests(c: ChainConfig, n: ChainConfig): (ts: seq<Test>)
    ensures |ts| == 7
  {
    [ ForkTest("Arrow Glacier fork block", c.arrowGlacier, n.arrowGlacier),
      ForkTest("Merge Start fork block", c.mergeFork, n.mergeFork),
      ForkTest("ramanujan fork block", c.ramanujan, n.ramanujan),
      ForkTest("mirrorSync fork block", c.mirrorSync, n.mirrorSync),
      ForkTest("bruno fork block", c.bruno, n.bruno),
      ForkTest("euler fork block", c.euler, n.euler),
      ForkTest("gibbs fork block", c.gibbs, n.gibbs) ]
  }

  function Tests(c: ChainConfig, n: ChainConfig): (ts: seq<Test>)
    ensures |ts| == 21
  {
    EarlyTests(c, n) + MiddleTests(c, n) + LateTests(c, n)
  }

  predicate Fails(t: Test, head: int) {
    match t
    case ForkTest(_, s, w) => IsForkIncompatible(s, w, head)
    case FlagTest(_, s, _, same) => IsForked(s, head) && !same
    case PetersburgTest(_, s, w, c) => IsForkIncompatible(s, w, head) && IsForkIncompatible(c, w, head)
  }

  /** The first test that fails. */
  function FirstFailure(ts: seq<Test>, head: int, from: nat): (r: Option<CompatError>)
    requires from <= |ts|
    ensures r.None? <==> forall k :: from <= k < |ts| ==> !Fails(ts[k], head)
    decreases |ts| - from
  {
    if from == |ts| then None
    else if Fails(ts[from], head) then Some(NewCompatError(ts[from].what, ts[from].stored, ts[from].want))
    else FirstFailure(ts, head, from + 1)
  }

  function CompareAt(c: ChainConfig, n: ChainConfig, head: int): Option<CompatError> {
    FirstFailure(Tests(c, n), head, 0)
  }

  ghost predicate Compatible(c: ChainConfig, n: ChainConfig, head: int) {
    forall t <- Tests(c, n) :: !Fails(t, head)
  }

  // ---- What the comparison compares ----

  /** A fork is active at a block from its own block on. */
  ghost predicate Active(s: Fork, block: int) {
    s.Some? && s.value <= block
  }

  /** At every block up to the head, one schedule has the fork active exactly when the other has. */
  ghost predicate Agree(s: Fork, w: Fork, head: int) {
    forall block: int :: block <= head ==> (Active(s, block) <==> Active(w, block))
  }

  lemma IncompatibleIs(s: Fork, w: Fork, head: int)
    ensures IsForkIncompatible(s, w, head) <==> !Agree(s, w, head)
    ensures IsForked(s, head) <==> Active(s, head)
  {
    if IsForkIncompatible(s, w, head) {
      var block := Earlier(s, w).value;
      assert block <= head && Active(s, block) != Active(w, block);
    }
  }

  function Conflict(what: string, stored: Fork, want: Fork): (e: Option<CompatError>)
    ensures e.Some? && e.value.what == what && e.value.stored == stored && e.value.want == want
  {
    Some(NewCompatError(what, stored, want))
  }

  lemma Step(c: ChainConfig, n: ChainConfig, head: int, k: nat)
    requires k < |Tests(c, n)|
    ensures var t := Tests(c, n)[k];
            FirstFailure(Tests(c, n), head, k) ==
              if Fails(t, head) then Conflict(t.what, t.stored, t.want) else FirstFailure(Tests(c, n), head, k + 1)
  {
    hide Fails, NewCompatError, Tests;
  }

  /** A test fails exactly when the schedules it compares differ at some block up to the head, or for a
      flag when its fork is active there and the settings differ. */
  lemma FailsIs(t: Test, head: int)
    ensures t.ForkTest? ==> (Fails(t, head) <==> !Agree(t.stored, t.want, head))
    ensures t.FlagTest? ==> (Fails(t, head) <==> Active(t.stored, head) && !t.same)
    ensures t.PetersburgTest? ==>
              (Fails(t, head) <==> !Agree(t.stored, t.want, head) && !Agree(t.constantinople, t.want, head))
  {
    hide Agree, IsForkIncompatible, IsForked;
    IncompatibleIs(t.stored, t.want, head);
    if t.PetersburgTest? { IncompatibleIs(t.constantinople, t.want, head); }
  }

  lemma EarlyTestsAre(c: ChainConfig, n: ChainConfig)
    ensures var ts := Tests(c, n);
            && ts[0] == ForkTest("Homestead fork block", c.homestead, n.homestead)
            && ts[1] == ForkTest("DAO fork block", c.daoFork, n.daoFork)
            && ts[2] == FlagTest("DAO fork support flag", c.daoFork, n.daoFork, c.daoForkSupport == n.daoForkSupport)
            && ts[3] == ForkTest("EIP150 fork block", c.eip150, n.eip150)
            && ts[4] == ForkTest("EIP155 fork block", c.eip155, n.eip155)
            && ts[5] == ForkTest("EIP158 fork block", c.eip158, n.eip158)
            && ts[6] == FlagTest("EIP158 chain ID", c.eip158, n.eip158, c.chainId == n.chainId)
  {
  }

  lemma MiddleTestsAre(c: ChainConfig, n: ChainConfig)
    ensures var ts := Tests(c, n);
            && ts[7] == ForkTest("Byzantium fork block", c.byzantium, n.byzantium)
            && ts[8] == ForkTest("Constantinople fork block", c.constantinople, n.constantinople)
            && ts[9] == PetersburgTest("Petersburg fork block", c.petersburg, n.petersburg, c.constantinople)
            && ts[10] == ForkTest("Istanbul fork block", c.istanbul, n.istanbul)
            && ts[11] == ForkTest("Muir Glacier fork block", c.muirGlacier, n.muirGlacier)
            && ts[12] == ForkTest("Berlin fork block", c.berlin, n.berlin)
            && ts[13] == ForkTest("London fork block", c.london, n.london)
  {
  }

  lemma LateTestsAre(c: ChainConfig, n: ChainConfig)
    ensures var ts := Tests(c, n);
            && ts[14] == ForkTest("Arrow Glacier fork block", c.arrowGlacier, n.arrowGlacier)
            && ts[15] == ForkTest("Merge Start fork block", c.mergeFork, n.mergeFork)
            && ts[16] == ForkTest("ramanujan fork block", c.ramanujan, n.ramanujan)
            && ts[17] == ForkTest("mirrorSync fork block", c.mirrorSync, n.mirrorSync)
            && ts[18] == ForkTest("bruno fork block", c.bruno, n.bruno)
            && ts[19] == ForkTest("euler fork block", c.euler, n.euler)
            && ts[20] == ForkTest("gibbs fork block", c.gibbs, n.gibbs)
  {
  }

  lemma From14(c: ChainConfig, n: ChainConfig, head: int)
    ensures FirstFailure(Tests(c, n), head, 14) ==
            if !Agree(c.arrowGlacier, n.arrowGlacier, head)
            then Conflict("Arrow Glacier fork block", c.arrowGlacier, n.arrowGlacier)
            else if !Agree(c.mergeFork, n.mergeFork, head)
            then Conflict("Merge Start fork block", c.mergeFork, n.mergeFork)
            else if !Agree(c.ramanujan, n.ramanujan, head)
            then Conflict("ramanujan fork block", c.ramanujan, n.ramanujan)
            else if !Agree(c.mirrorSync, n.mirrorSync, head)
            then Conflict("mirrorSync fork block", c.mirrorSync, n.mirrorSync)
            else if !Agree(c.bruno, n.bruno, head)
            then Conflict("bruno fork block", c.bruno, n.bruno)
            else if !Agree(c.euler, n.euler, head)
            then Conflict("euler fork block", c.euler, n.euler)
            else if !Agree(c.gibbs, n.gibbs, head)
            then Conflict("gibbs fork block", c.gibbs, n.gibbs)
            else FirstFailure(Tests(c, n), head, 21)
  {
    hide Agree, Fails, Active, FirstFailure, Conflict, Tests;
    LateTestsAre(c, n);
    forall k: nat | 14 <= k < 21 { FailsIs(Tests(c, n)[k], head); }
    Step(c, n, head, 14);
    Step(c, n, head, 15);
    Step(c, n, head, 16);
    Step(c, n, head, 17);
    Step(c, n, head, 18);
    Step(c, n, head, 19);
    Step(c, n, head, 20);
  }

  lemma From7(c: ChainConfig, n: ChainConfig, head: int)
    ensures FirstFailure(Tests(c, n), head, 7) ==
            if !Agree(c.byzantium, n.byzantium, head)
            then Conflict("Byzantium fork block", c.byzantium, n.byzantium)
            else if !Agree(c.constantinople, n.constantinople, head)
            then Conflict("Constantinople fork block", c.constantinople, n.constantinople)
            else if !Agree(c.petersburg, n.petersburg, head) && !Agree(c.constantinople, n.petersburg, head)
            then Conflict("Petersburg fork block", c.petersburg, n.petersburg)
            else if !Agree(c.istanbul, n.istanbul, head)
            then Conflict("Istanbul fork block", c.istanbul, n.istanbul)
            else if !Agree(c.muirGlacier, n.muirGlacier, head)
            then Conflict("Muir Glacier fork block", c.muirGlacier, n.muirGlacier)
            else if !Agree(c.berlin, n.berlin, head)
            then Conflict("Berlin fork block", c.berlin, n.berlin)
            else if !Agree(c.london, n.london, head)
            then Conflict("London fork block", c.london, n.london)
            else FirstFailure(Tests(c, n), head, 14)
  {
    hide Agree, Fails, Active, FirstFailure, Conflict, Tests;
    MiddleTestsAre(c, n);
    forall k: nat | 7 <= k < 14 { FailsIs(Tests(c, n)[k], head); }
    Step(c, n, head, 7);
    Step(c, n, head, 8);
    Step(c, n, head, 9);
    Step(c, n, head, 10);
    Step(c, n, head, 11);
    Step(c, n, head, 12);
    Step(c, n, head, 13);
  }

  lemma From0(c: ChainConfig, n: ChainConfig, head: int)
    ensures FirstFailure(Tests(c, n), head, 0) ==
            if !Agree(c.homestead, n.homestead, head)
            then Conflict("Homestead fork block", c.homestead, n.homestead)
            else if !Agree(c.daoFork, n.daoFork, head)
            then Conflict("DAO fork block", c.daoFork, n.daoFork)
            else if Active(c.daoFork, head) && c.daoForkSupport != n.daoForkSupport
            then Conflict("DAO fork support flag", c.daoFork, n.daoFork)
            else if !Agree(c.eip150, n.eip150, head)
            then Conflict("EIP150 fork block", c.eip150, n.eip150)
            else if !Agree(c.eip155, n.eip155, head)
            then Conflict("EIP155 fork block", c.eip155, n.eip155)
            else if !Agree(c.eip158, n.eip158, head)
            then Conflict("EIP158 fork block", c.eip158, n.eip158)
            else if Active(c.eip158, head) && c.chainId != n.chainId
            then Conflict("EIP158 chain ID", c.eip158, n.eip158)
            else FirstFailure(Tests(c, n), head, 7)
  {
    hide Agree, Fails, Active, FirstFailure, Conflict, Tests;
    EarlyTestsAre(c, n);
    forall k: nat | 0 <= k < 7 { FailsIs(Tests(c, n)[k], head); }
    Step(c, n, head, 0);
    Step(c, n, head, 1);
    Step(c, n, head, 2);
    Step(c, n, head, 3);
    Step(c, n, head, 4);
    Step(c, n, head, 5);
    Step(c, n, head, 6);
  }

  /** The conflict that is reported, with the stored and the new block of the fork it names: the first in
      this order. */
  lemma ReportedConflict(c: ChainConfig, n: ChainConfig, head: int)
    ensures CompareAt(c, n, head) ==
            if !Agree(c.homestead, n.homestead, head)
            then Conflict("Homestead fork block", c.homestead, n.homestead)
            else if !Agree(c.daoFork, n.daoFork, head)
            then Conflict("DAO fork block", c.daoFork, n.daoFork)
            else if Active(c.daoFork, head) && c.daoForkSupport != n.daoForkSupport
            then Conflict("DAO fork support flag", c.daoFork, n.daoFork)
            else if !Agree(c.eip150, n.eip150, head)
            then Conflict("EIP150 fork block", c.eip150, n.eip150)
            else if !Agree(c.eip155, n.eip155, head)
            then Conflict("EIP155 fork block", c.eip155, n.eip155)
            else if !Agree(c.eip158, n.eip158, head)
            then Conflict("EIP158 fork block", c.eip158, n.eip158)
            else if Active(c.eip158, head) && c.chainId != n.chainId
            then Conflict("EIP158 chain ID", c.eip158, n.eip158)
            else if !Agree(c.byzantium, n.byzantium, head)
            then Conflict("Byzantium fork block", c.byzantium, n.byzantium)
            else if !Agree(c.constantinople, n.constantinople, head)
            then Conflict("Constantinople fork block", c.constantinople, n.constantinople)
            else if !Agree(c.petersburg, n.petersburg, head) && !Agree(c.constantinople, n.petersburg, head)
            then Conflict("Petersburg fork block", c.petersburg, n.petersburg)
            else if !Agree(c.istanbul, n.istanbul, head)
            then Conflict("Istanbul fork block", c.istanbul, n.istanbul)
            else if !Agree(c.muirGlacier, n.muirGlacier, head)
            then Conflict("Muir Glacier fork block", c.muirGlacier, n.muirGlacier)
            else if !Agree(c.berlin, n.berlin, head)
            then Conflict("Berlin fork block", c.berlin, n.berlin)
            else if !Agree(c.london, n.london, head)
            then Conflict("London fork block", c.london, n.london)
            else if !Agree(c.arrowGlacier, n.arrowGlacier, head)
            then Conflict("Arrow Glacier fork block", c.arrowGlacier, n.arrowGlacier)
            else if !Agree(c.mergeFork, n.mergeFork, head)
            then Conflict("Merge Start fork block", c.mergeFork, n.mergeFork)
            else if !Agree(c.ramanujan, n.ramanujan, head)
            then Conflict("ramanujan fork block", c.ramanujan, n.ramanujan)
            else if !Agree(c.mirrorSync, n.mirrorSync, head)
            then Conflict("mirrorSync fork block", c.mirrorSync, n.mirrorSync)
            else if !Agree(c.bruno, n.bruno, head)
            then Conflict("bruno fork block", c.bruno, n.bruno)
            else if !Agree(c.euler, n.euler, head)
            then Conflict("euler fork block", c.euler, n.euler)
            else if !Agree(c.gibbs, n.gibbs, head)
            then Conflict("gibbs fork block", c.gibbs, n.gibbs)
            else None
  {
    hide Agree, Active, FirstFailure, Conflict, Tests;
    NoneLeft(c, n, head);
    From0(c, n, head);
    From7(c, n, head);
    From14(c, n, head);
  }

  lemma NoneLeft(c: ChainConfig, n: ChainConfig, head: int)
    ensures FirstFailure(Tests(c, n), head, |Tests(c, n)|) == None
  {
    hide Tests;
  }

  /** Two configurations are compatible at a height exactly when every fork is active in the one at the
      same blocks up to there as in the other, Petersburg possibly as Constantinople was, and the support
      flag and the chain identity agree if their fork is active. */
  lemma CompatibleIs(c: ChainConfig, n: ChainConfig, head: int)
    ensures Compatible(c, n, head) <==>
              Agree(c.homestead, n.homestead, head) &&
              Agree(c.daoFork, n.daoFork, head) &&
              (Active(c.daoFork, head) ==> c.daoForkSupport == n.daoForkSupport) &&
              Agree(c.eip150, n.eip150, head) &&
              Agree(c.eip155, n.eip155, head) &&
              Agree(c.eip158, n.eip158, head) &&
              (Active(c.eip158, head) ==> c.chainId == n.chainId) &&
              Agree(c.byzantium, n.byzantium, head) &&
              Agree(c.constantinople, n.constantinople, head) &&
              (Agree(c.petersburg, n.petersburg, head) || Agree(c.constantinople, n.petersburg, head)) &&
              Agree(c.istanbul, n.istanbul, head) &&
              Agree(c.muirGlacier, n.muirGlacier, head) &&
              Agree(c.berlin, n.berlin, head) &&
              Agree(c.london, n.london, head) &&
              Agree(c.arrowGlacier, n.arrowGlacier, head) &&
              Agree(c.mergeFork, n.mergeFork, head) &&
              Agree(c.ramanujan, n.ramanujan, head) &&
              Agree(c.mirrorSync, n.mirrorSync, head) &&
              Agree(c.bruno, n.bruno, head) &&
              Agree(c.euler, n.euler, head) &&
              Agree(c.gibbs, n.gibbs, head)
  {
    hide Agree, Active, Tests, Conflict, Compatible, CompareAt;
    ReportedConflict(c, n, head);
    ComparesCompatible(c, n, head);
  }

  /** The rewind height of a failing test lies below the head, unless it is zero. */
  lemma RewindsBelow(t: Test, head: Height)
    requires Fails(t, head)
    ensures var r := NewCompatError(t.what, t.stored, t.want).rewindTo;
            r == 0 || (r < head && Earlier(t.stored, t.want) == Some(r + 1))
    ensures Earlier(t.stored, t.want).Some? && Earlier(t.stored, t.want).value <= head
  {
  }

  lemma {:induction false} FailureFound(ts: seq<Test>, head: int, from: nat) returns (k: nat)
    requires from <= |ts| && FirstFailure(ts, head, from).Some?
    ensures from <= k < |ts| && Fails(ts[k], head) && forall j :: from <= j < k ==> !Fails(ts[j], head)
    ensures FirstFailure(ts, head, from).value == NewCompatError(ts[k].what, ts[k].stored, ts[k].want)
    decreases |ts| - from
  {
    if Fails(ts[from], head) {
      k := from;
    } else {
      k := FailureFound(ts, head, from + 1);
    }
  }

  lemma RewindLower(c: ChainConfig, n: ChainConfig, head: Height)
    requires CompareAt(c, n, head).Some?
    ensures var r := CompareAt(c, n, head).value.rewindTo; r == 0 || r < head
  {
    hide Tests, FirstFailure, NewCompatError, Earlier;
    var k := FailureFound(Tests(c, n), head, 0);
    RewindsBelow(Tests(c, n)[k], head);
  }

  /** A conflict does not go away at a greater height. */
  lemma IncompatibleAbove(c: ChainConfig, n: ChainConfig, head: int, above: int)
    requires !Compatible(c, n, head) && head <= above
    ensures !Compatible(c, n, above)
  {
    hide Tests;
    var t :| t in Tests(c, n) && Fails(t, head);
    assert Fails(t, above);
  }

  /** The search as a recursion: from the height down, until there is no conflict or no progress. */
  function Search(c: ChainConfig, n: ChainConfig, head: Height, last: Option<CompatError>): Option<CompatError>
    requires last.Some? ==> last.value.rewindTo == head
    decreases head, if last.None? then 1 else 0
  {
    var err := CompareAt(c, n, head);
    if err.None? || (last.Some? && err.value.rewindTo == last.value.rewindTo) then last
    else
      RewindLower(c, n, head);
      Search(c, n, err.value.rewindTo, err)
  }

  method CheckCompatible(c: ChainConfig, n: ChainConfig, height: Height) returns (lasterr: Option<CompatError>)
    ensures lasterr == Search(c, n, height, None)
  {
    var head := height;
    lasterr := None;
    while true
      invariant lasterr.Some? ==> lasterr.value.rewindTo == head
      invariant Search(c, n, height, None) == Search(c, n, head, lasterr)
      decreases head, if lasterr.None? then 1 else 0
    {
      var err := CompareAt(c, n, head);
      if err.None? || (lasterr.Some? && err.value.rewindTo == lasterr.value.rewindTo) { break; }
      RewindLower(c, n, head);
      lasterr := err;
      head := err.value.rewindTo;
    }
  }

  /** The error is what the comparison reports at some height. */
  ghost predicate Found(c: ChainConfig, n: ChainConfig, e: CompatError) {
    exists head: Height :: CompareAt(c, n, head) == Some(e)
  }

  /** The search reports a conflict exactly when there is one at the height where it starts; the height
      it asks to rewind to is free of conflicts, or zero. */
  lemma {:induction false} SearchSound(c: ChainConfig, n: ChainConfig, head: Height, last: Option<CompatError>)
    requires last.Some? ==> last.value.rewindTo == head && Found(c, n, last.value)
    ensures var r := Search(c, n, head, last);
            (r.None? <==> last.None? && Compatible(c, n, head)) &&
            (r.Some? ==> Found(c, n, r.value)) &&
            (r.Some? ==> r.value.rewindTo <= head) &&
            (r.Some? ==> r.value.rewindTo == 0 || Compatible(c, n, r.value.rewindTo))
    decreases head, if last.None? then 1 else 0
  {
    hide Tests, FirstFailure;
    var err := CompareAt(c, n, head);
    if err.Some? {
      RewindLower(c, n, head);
      if !(last.Some? && err.value.rewindTo == last.value.rewindTo) {
        assert Found(c, n, err.value);
        SearchSound(c, n, err.value.rewindTo, err);
      }
    }
  }

  lemma FlagAfterItsFork(c: ChainConfig, n: ChainConfig, k: nat)
    requires k < |Tests(c, n)| && Tests(c, n)[k].FlagTest?
    ensures k > 0 && Tests(c, n)[k - 1].ForkTest?
    ensures Tests(c, n)[k - 1].stored == Tests(c, n)[k].stored && Tests(c, n)[k - 1].want == Tests(c, n)[k].want
  {
  }

  lemma OnePetersburg(c: ChainConfig, n: ChainConfig, k: nat)
    requires k < |Tests(c, n)| && Tests(c, n)[k].PetersburgTest?
    ensures Tests(c, n)[k].stored == c.petersburg && Tests(c, n)[k].constantinople == c.constantinople
    ensures Tests(c, n)[k].want == n.petersburg
  {
  }

  /** Constantinople is stored, at most 1 or no later than Petersburg; or Petersburg is out of reach. */
  predicate PetersburgOrdered(c: ChainConfig) {
    c.petersburg.None? || c.petersburg.value >= TWO64 - 1 ||
    (c.constantinople.Some? && (c.constantinople.value <= c.petersburg.value || c.constantinople.value <= 1))
  }

  lemma FoundExact(c: ChainConfig, n: ChainConfig, e: CompatError)
    requires Found(c, n, e) && PetersburgOrdered(c)
    ensures !Compatible(c, n, e.rewindTo + 1)
  {
    hide Tests, FirstFailure, NewCompatError, Earlier;
    var head: Height :| CompareAt(c, n, head) == Some(e);
    var k := FailureFound(Tests(c, n), head, 0);
    var t := Tests(c, n)[k];
    RewindsBelow(t, head);
    if t.FlagTest? {
      FlagAfterItsFork(c, n, k);
      assert !Fails(Tests(c, n)[k - 1], head);
    } else if t.PetersburgTest? {
      OnePetersburg(c, n, k);
    }
    FailsFromRewind(t, head, e.rewindTo);
    assert t in Tests(c, n);
  }

  lemma FailsFromRewind(t: Test, head: Height, r: Height)
    requires Fails(t, head) && r == NewCompatError(t.what, t.stored, t.want).rewindTo
    requires t.FlagTest? ==> t.stored == t.want
    requires t.PetersburgTest? ==>
               t.stored.None? || t.stored.value >= TWO64 - 1 ||
               (t.constantinople.Some? && (t.constantinople.value <= t.stored.value || t.constantinople.value <= 1))
    ensures Fails(t, r + 1)
  {
    RewindsBelow(t, head);
  }

  /** With nothing changed but Petersburg, only its test can fail. */
  lemma OnlyPetersburg(c: ChainConfig, want: Fork, head: int)
    ensures var n := c.(petersburg := want);
            var conflict :=
              IsForkIncompatible(c.petersburg, want, head) && IsForkIncompatible(c.constantinople, want, head);
            CompareAt(c, n, head) ==
              if conflict then Some(NewCompatError("Petersburg fork block", c.petersburg, want)) else None
  {
    hide FirstFailure, NewCompatError, IsForkIncompatible;
    var n := c.(petersburg := want);
    var ts := Tests(c, n);
    assert ts[9] == PetersburgTest("Petersburg fork block", c.petersburg, want, c.constantinople);
    forall k | 0 <= k < |ts| && k != 9 ensures !Fails(ts[k], head) {
      Unchanged(c, want, head, k);
    }
    hide Tests;
    if CompareAt(c, n, head).Some? {
      var k := FailureFound(ts, head, 0);
    } else {
      assert !Fails(ts[9], head);
    }
  }

  lemma Unchanged(c: ChainConfig, want: Fork, head: int, k: nat)
    requires k < |Tests(c, c.(petersburg := want))| && k != 9
    ensures !Fails(Tests(c, c.(petersburg := want))[k], head)
  {
    var t := Tests(c, c.(petersburg := want))[k];
    assert t.ForkTest? || t.FlagTest?;
    assert t.stored == t.want && (t.FlagTest? ==> t.same);
    hide Tests;
  }

  /** A change of Petersburg alone for which the reported height is not the threshold. */
  lemma RewindTooFar(c: ChainConfig) returns (n: ChainConfig, height: Height)
    requires !PetersburgOrdered(c)
    ensures Search(c, n, height, None).Some? && Compatible(c, n, Search(c, n, height, None).value.rewindTo + 1)
  {
    hide CompareAt, Compatible, Search, NewCompatError, Tests, FirstFailure;
    var p := c.petersburg.value;
    var first := if p > 1 then p else 1;
    var want: Fork;
    if c.constantinople.Some? && c.constantinople.value < TWO64 {
      want, height := None, c.constantinople.value;
    } else {
      want, height := Some(first + 1), first + 1;
    }
    n := c.(petersburg := want);
    OnlyPetersburg(c, want, height);
    OnlyPetersburg(c, want, first - 1);
    OnlyPetersburg(c, want, first);
    ReportedAt(p, want, first);
    StopsThere(c, n, height, NewCompatError("Petersburg fork block", c.petersburg, want));
    ComparesCompatible(c, n, first);
  }

  lemma ReportedAt(p: int, want: Fork, first: Height)
    requires first == (if p > 1 then p else 1) && (want.Some? ==> want.value > p)
    ensures NewCompatError("Petersburg fork block", Some(p), want).rewindTo == first - 1
  {
    if p > 0 { assert p % TWO64 == p; }
  }

  lemma StopsThere(c: ChainConfig, n: ChainConfig, height: Height, e: CompatError)
    requires CompareAt(c, n, height) == Some(e) && CompareAt(c, n, e.rewindTo).None?
    ensures Search(c, n, height, None) == Some(e)
  {
    hide CompareAt;
    assert Search(c, n, e.rewindTo, Some(e)) == Some(e);
  }

  lemma ComparesCompatible(c: ChainConfig, n: ChainConfig, head: int)
    ensures CompareAt(c, n, head).None? <==> Compatible(c, n, head)
  {
    hide Tests;
  }

  /** For a stored configuration the reported height is the exact threshold, under every change and at
      every height, if and only if the stored Petersburg and Constantinople blocks are in order. */
  lemma ThresholdExactly(c: ChainConfig)
    ensures PetersburgOrdered(c) <==>
            forall n, height: Height | Search(c, n, height, None).Some? ::
              !Compatible(c, n, Search(c, n, height, None).value.rewindTo + 1)
  {
    hide Compatible, Search, Found;
    if PetersburgOrdered(c) {
      forall n, height: Height | Search(c, n, height, None).Some?
        ensures !Compatible(c, n, Search(c, n, height, None).value.rewindTo + 1)
      {
        SearchSound(c, n, height, None);
        FoundExact(c, n, Search(c, n, height, None).value);
      }
    } else {
      var n, height := RewindTooFar(c);
    }
  }

  /** The whole contract of the check, for stored configurations in order: no error exactly when there
      is no conflict; otherwise every height above the reported one has a conflict, and no height up
      to it has, unless not even the first block can stay. */
  lemma CheckMeaning(c: ChainConfig, n: ChainConfig, height: Height, at: Height)
    requires PetersburgOrdered(c)
    ensures Search(c, n, height, None).None? <==> Compatible(c, n, height)
    ensures Search(c, n, height, None).Some? ==>
              var r := Search(c, n, height, None).value.rewindTo;
              (at > r ==> !Compatible(c, n, at)) && (at <= r && r > 0 ==> Compatible(c, n, at))
  {
    hide Compatible, Search, Found;
    SearchSound(c, n, height, None);
    var e := Search(c, n, height, None);
    if e.Some? {
      FoundExact(c, n, e.value);
      if at > e.value.rewindTo { IncompatibleAbove(c, n, e.value.rewindTo + 1, at); }
      if at <= e.value.rewindTo && !Compatible(c, n, at) { IncompatibleAbove(c, n, at, e.value.rewindTo); }
    }
  }
}

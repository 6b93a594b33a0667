/** How the sub-protocols of one peer take turns on the connection: `Peer.run`, `startProtocols`,
    `pingLoop`, `readLoop` and `protoRW.WriteMsg` of p2p/peer.go, as atomic channel operations of any
    number of goroutines. */
module PeerWrite {

  /** Where `Peer.run` stands: waiting in its select, about to hand the write token back, or past
      the loop and waiting for the goroutines to end. */
  datatype Run = Waiting | Granting | Closing

  /** The buffered channels hold one token, one write result, one read error, and one error per
      protocol and for the ping loop.  A write result is true when the write went well. */
  datatype State = State(
    protocols: nat,
    run: Run,
    writeStart: nat,
    writeErr: seq<bool>,
    readErr: nat,
    protoErr: nat,
    writing: set<nat>,
    ended: set<nat>,
    readEnded: bool)

  datatype Step =
    | BeginWrite(writer: nat)
    | EndWrite(writer: nat, ok: bool)
    | TakeResult
    | GrantNext
    | EndHandler(handler: nat)
    | EndRead
    | TakeReadErr
    | TakeProtoErr
    | Disconnect

  function Init(protocols: nat): State {
    State(protocols, Waiting, 1, [], 0, 0, {}, {}, false)
  }

  /** A goroutine has come to this operation; a receive also needs something to receive. */
  ghost predicate AtStep(st: State, step: Step) {
    match step
    case BeginWrite(w) => w !in st.writing && st.writeStart > 0
    case EndWrite(w, _) => w in st.writing
    case TakeResult => st.run == Waiting && st.writeErr != []
    case GrantNext => st.run == Granting
    case EndHandler(h) => h <= st.protocols && h !in st.ended
    case EndRead => !st.readEnded
    case TakeReadErr => st.run == Waiting && st.readErr > 0
    case TakeProtoErr => st.run == Waiting && st.protoErr > 0
    case Disconnect => st.run == Waiting
  }

  /** The operation is a send into a channel that is full. */
  predicate Blocks(st: State, step: Step) {
    match step
    case EndWrite(_, _) => |st.writeErr| >= 1
    case GrantNext => st.writeStart >= 1
    case EndHandler(_) => st.protoErr >= st.protocols + 1
    case EndRead => st.readErr >= 1
    case _ => false
  }

  ghost function Next(st: State, step: Step): State
    requires AtStep(st, step) && !Blocks(st, step)
  {
    match step
    case BeginWrite(w) => st.(writeStart := st.writeStart - 1, writing := st.writing + {w})
    case EndWrite(w, ok) => st.(writing := st.writing - {w}, writeErr := st.writeErr + [ok])
    case TakeResult =>
      st.(writeErr := st.writeErr[1..], run := if st.writeErr[0] then Granting else Closing)
    case GrantNext => st.(writeStart := st.writeStart + 1, run := Waiting)
    case EndHandler(h) => st.(ended := st.ended + {h}, protoErr := st.protoErr + 1)
    case EndRead => st.(readEnded := true, readErr := st.readErr + 1)
    case TakeReadErr => st.(readErr := st.readErr - 1, run := Closing)
    case TakeProtoErr => st.(protoErr := st.protoErr - 1, run := Closing)
    case Disconnect => st.(run := Closing)
  }

  /** Where the one write token may be. */
  ghost function Tokens(st: State): nat {
    st.writeStart + |st.writing| + |st.writeErr| + if st.run == Granting then 1 else 0
  }

  ghost predicate Inv(st: State) {
    Tokens(st) <= 1 && (st.run != Closing ==> Tokens(st) == 1) &&
    (forall h <- st.ended :: h <= st.protocols) && st.protoErr <= |st.ended| &&
    st.readErr <= (if st.readEnded then 1 else 0) &&
    (st.run != Closing ==> st.protoErr == |st.ended| && st.readErr == if st.readEnded then 1 else 0)
  }

  lemma {:induction false} Bounded(s: set<nat>, n: nat)
    requires forall h <- s :: h < n
    ensures |s| <= n
  {
    if n > 0 {
      Bounded(s - {n - 1}, n - 1);
      assert s <= (s - {n - 1}) + {n - 1};
      if n - 1 in s { assert |s| == |s - {n - 1}| + 1; } else { assert s - {n - 1} == s; }
    } else {
      assert s == {};
    }
  }

  lemma InvStep(st: State, step: Step)
    requires Inv(st) && AtStep(st, step) && !Blocks(st, step)
    ensures Inv(Next(st, step)) && Next(st, step).protocols == st.protocols
  {
  }

  /** A handler that has not ended leaves a place in the error channel. */
  lemma RoomForHandler(st: State, h: nat)
    requires Inv(st) && h <= st.protocols && h !in st.ended
    ensures st.protoErr < st.protocols + 1
  {
    Bounded(st.ended + {h}, st.protocols + 1);
  }

  /** No goroutine ever waits to send. */
  lemma NeverBlocks(st: State, step: Step)
    requires Inv(st) && AtStep(st, step)
    ensures !Blocks(st, step)
  {
    if step.EndWrite? { assert |st.writing| > 0 by { assert step.writer in st.writing; } }
    if step.EndHandler? { RoomForHandler(st, step.handler); }
  }

  /** The state after a schedule: the operations in the order they happen, by whichever goroutine;
      one that has to wait, to receive or to send, does not happen. */
  ghost function After(protocols: nat, steps: seq<Step>): State {
    if steps == [] then Init(protocols)
    else
      var st := After(protocols, steps[..|steps| - 1]);
      var step := steps[|steps| - 1];
      if AtStep(st, step) && !Blocks(st, step) then Next(st, step) else st
  }

  lemma {:induction false} EveryRun(protocols: nat, steps: seq<Step>)
    ensures Inv(After(protocols, steps)) && After(protocols, steps).protocols == protocols
    decreases |steps|
  {
    if steps != [] {
      var st, step := After(protocols, steps[..|steps| - 1]), steps[|steps| - 1];
      EveryRun(protocols, steps[..|steps| - 1]);
      if AtStep(st, step) && !Blocks(st, step) { InvStep(st, step); }
    }
  }

  /** Over all interleavings, also during shutdown: at most one write is under way, and no send on any
      of the channels has to wait. */
  lemma OneWriter(protocols: nat, steps: seq<Step>, step: Step)
    ensures |After(protocols, steps).writing| <= 1
    ensures AtStep(After(protocols, steps), step) ==> !Blocks(After(protocols, steps), step)
    ensures var st := After(protocols, steps);
            st.writeStart <= 1 && |st.writeErr| <= 1 && st.readErr <= 1 && st.protoErr <= protocols + 1
  {
    EveryRun(protocols, steps);
    Bounded(After(protocols, steps).ended, protocols + 1);
    if AtStep(After(protocols, steps), step) { NeverBlocks(After(protocols, steps), step); }
  }

  /** As long as the peer runs the token is not lost: someone can start a write, is writing, or the
      run loop can bring the token back. */
  lemma TokenNeverLost(protocols: nat, steps: seq<Step>, writer: nat)
    requires After(protocols, steps).run != Closing
    ensures var st := After(protocols, steps);
            AtStep(st, BeginWrite(writer)) || st.writing != {} || AtStep(st, TakeResult) || AtStep(st, GrantNext)
  {
    EveryRun(protocols, steps);
  }

  /** A step by the run loop that ends it: a failed write, a read error, the end of a handler, or a
      request to disconnect. */
  ghost predicate Ends(st: State, step: Step) {
    (step.TakeResult? && st.writeErr != [] && !st.writeErr[0]) || step.TakeReadErr? || step.TakeProtoErr? ||
    step.Disconnect?
  }

  ghost predicate EndedAt(protocols: nat, steps: seq<Step>, i: nat)
    requires i < |steps|
  {
    AtStep(After(protocols, steps[..i]), steps[i]) && Ends(After(protocols, steps[..i]), steps[i])
  }

  lemma ClosingStep(st: State, step: Step)
    requires AtStep(st, step) && !Blocks(st, step)
    ensures Next(st, step).run == Closing <==> st.run == Closing || Ends(st, step)
  {
  }

  /** In every schedule the peer is closing exactly if such a step was taken, and then for good. */
  lemma {:induction false} ClosesExactly(protocols: nat, steps: seq<Step>)
    ensures After(protocols, steps).run == Closing <==> exists i :: 0 <= i < |steps| && EndedAt(protocols, steps, i)
    decreases |steps|
  {
    hide AtStep, Blocks, Next, Ends, Inv;
    if steps != [] {
      var n := |steps| - 1;
      var init, step := steps[..n], steps[n];
      var st := After(protocols, init);
      ClosesExactly(protocols, init);
      EveryRun(protocols, init);
      forall i | 0 <= i < n ensures EndedAt(protocols, steps, i) <==> EndedAt(protocols, init, i) {
        assert init[..i] == steps[..i];
      }
      if AtStep(st, step) {
        NeverBlocks(st, step);
        ClosingStep(st, step);
      }
      assert EndedAt(protocols, steps, n) <==> AtStep(st, step) && Ends(st, step);
    }
  }

  /** A write has failed: the token is gone, and the run loop has not yet heard of it or is closing. */
  ghost predicate Spent(st: State) {
    st.writeStart == 0 && st.writing == {} && st.run != Granting &&
    (st.writeErr == [false] || (st.writeErr == [] && st.run == Closing))
  }

  lemma SpentStep(st: State, step: Step)
    requires AtStep(st, step) && !Blocks(st, step)
    ensures Spent(st) ==> Spent(Next(st, step))
    ensures Inv(st) && step.EndWrite? && !step.ok ==> Spent(Next(st, step))
  {
    if Inv(st) && step.EndWrite? {
      assert |st.writing - {step.writer}| == 0;
    }
  }

  /** After a write that failed, no write begins any more, in any schedule. */
  lemma {:induction false} NoWriteAfterFailure(protocols: nat, steps: seq<Step>, i: nat, writer: nat)
    requires i < |steps| && steps[i].EndWrite? && !steps[i].ok && AtStep(After(protocols, steps[..i]), steps[i])
    ensures Spent(After(protocols, steps)) && !AtStep(After(protocols, steps), BeginWrite(writer))
    decreases |steps|
  {
    hide Next, Blocks, Inv;
    var n := |steps| - 1;
    var init := steps[..n];
    EveryRun(protocols, init);
    var st := After(protocols, init);
    if i < n {
      assert init[..i] == steps[..i];
      NoWriteAfterFailure(protocols, init, i, writer);
    }
    if AtStep(st, steps[n]) {
      NeverBlocks(st, steps[n]);
      SpentStep(st, steps[n]);
    }
  }

  /** Whatever ends is heard of: as long as the peer is not closing, the run loop can take the error of a
      handler or reader that has ended and the result of a write, now or once the token is back. */
  lemma ErrorsHeard(protocols: nat, steps: seq<Step>)
    requires After(protocols, steps).run != Closing
    ensures var st := After(protocols, steps);
            && (st.ended != {} ==> AtStep(st, TakeProtoErr) || AtStep(st, GrantNext))
            && (st.readEnded ==> AtStep(st, TakeReadErr) || AtStep(st, GrantNext))
            && (st.writeErr != [] ==> AtStep(st, TakeResult))
            && (AtStep(st, Disconnect) || AtStep(st, GrantNext))
            && (AtStep(st, GrantNext) ==> !Blocks(st, GrantNext) && Next(st, GrantNext).run == Waiting)
  {
    EveryRun(protocols, steps);
  }
}

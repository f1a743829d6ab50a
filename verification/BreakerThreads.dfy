/**
 The circuit breaker under arbitrary interleaving: every atomic load, store, fetch_add and compare_exchange of
 src/application/circuit_breaker.rs is one step of one operation. An operation is identified by a number and
 its program counter says which atomic access comes next.
*/
module BreakerThreads {
  import opened Machine
  import opened CircuitBreakers

  type OpId = nat

  datatype Pc =
    // record_failure, holding the failure number it fetched
    | StoringTime(number: nat)
    | LoadingForFailure(number: nat)
    | StoringOpen(number: nat)
    | FailureDone(number: nat)
    // allow_request
    | ReadingTime
    | Exchanging
    | Reloading
    | AllowDone(allowed: bool)
    // record_success
    | ResettingThenClosing
    | ResettingOnly
    | StoringClosed
    | SuccessDone
  {
    predicate InFailure() {
      StoringTime? || LoadingForFailure? || StoringOpen? || FailureDone?
    }

    predicate InSuccess() {
      ResettingThenClosing? || ResettingOnly? || StoringClosed? || SuccessDone?
    }
  }

  /** `exchanges` has one number per Open episode: how many compare-exchanges moved it to HalfOpen. */
  datatype World = World(
    state: CircuitState,
    failures: nat,
    lastFailureNanos: u64,
    ops: map<OpId, Pc>,
    exchanges: seq<nat>
  )

  const START := World(Closed, 0, 0, map[], [])

  datatype Step =
    | StartFailure(op: OpId)
    | StartAllow(op: OpId)
    | StartSuccess(op: OpId)
    | Proceed(op: OpId, now: Instant)

  function Move(w: World, op: OpId, pc: Pc): World {
    w.(ops := w.ops[op := pc])
  }

  function StoreOpen(w: World): World {
    if w.state == Open then w else w.(state := Open, exchanges := w.exchanges + [0])
  }

  function Exchange(w: World): World
    requires w.exchanges != []
  {
    var last := |w.exchanges| - 1;
    w.(state := HalfOpen, exchanges := w.exchanges[last := w.exchanges[last] + 1])
  }

  /**
   A step whose operation does not exist, exists already, or is over, does nothing. An exchange that finds Open
   always finds an episode to book it on (`OneWinnerEach`).
  */
  function Do(config: BreakerConfig, w: World, step: Step): World {
    if (step.Proceed? <==> step.op !in w.ops) then w
    else
      match step
      case StartFailure(op) =>
        Move(w.(failures := w.failures + 1), op, StoringTime(w.failures + 1))
      case StartAllow(op) =>
        Move(w, op, if w.state == Open then ReadingTime else AllowDone(true))
      case StartSuccess(op) =>
        Move(w, op, match w.state
                    case HalfOpen => ResettingThenClosing
                    case Closed => ResettingOnly
                    case Open => SuccessDone)
      case Proceed(op, now) =>
        match w.ops[op]
        case StoringTime(n) => Move(w.(lastFailureNanos := ToNanos(now)), op, LoadingForFailure(n))
        case LoadingForFailure(n) =>
          Move(w, op, match w.state
                      case HalfOpen => StoringOpen(n)
                      case Closed => if n >= config.failureThreshold then StoringOpen(n) else FailureDone(n)
                      case Open => FailureDone(n))
        case StoringOpen(n) => Move(StoreOpen(w), op, FailureDone(n))
        case ReadingTime =>
          Move(w, op, if SaturatingSince(now, w.lastFailureNanos) >= config.recoveryTimeout
                      then Exchanging else AllowDone(false))
        case Exchanging =>
          if w.state == Open && w.exchanges != [] then Move(Exchange(w), op, AllowDone(true))
          else Move(w, op, Reloading)
        case Reloading => Move(w, op, AllowDone(w.state == HalfOpen))
        case ResettingThenClosing => Move(w.(failures := 0), op, StoringClosed)
        case ResettingOnly => Move(w.(failures := 0), op, SuccessDone)
        case StoringClosed => Move(w.(state := Closed), op, SuccessDone)
        case _ => w
  }

  ghost function Run(config: BreakerConfig, steps: seq<Step>): World {
    if steps == [] then START
    else Do(config, Run(config, steps[..|steps| - 1]), steps[|steps| - 1])
  }

  // ---- Every run ----

  /** Each Open episode has had at most one winner, and the current one none yet. */
  ghost predicate OneWinnerEach(w: World) {
    && (forall i | 0 <= i < |w.exchanges| :: w.exchanges[i] <= 1)
    && (w.state == Open ==> w.exchanges != [] && w.exchanges[|w.exchanges| - 1] == 0)
  }

  lemma DoKeepsOneWinner(config: BreakerConfig, w: World, step: Step)
    requires OneWinnerEach(w)
    ensures OneWinnerEach(Do(config, w, step))
  {
  }

  /** Whatever the threads run, one compare-exchange at most moves an Open episode to HalfOpen. */
  lemma {:induction false} AtMostOneExchangePerEpisode(config: BreakerConfig, steps: seq<Step>)
    ensures OneWinnerEach(Run(config, steps))
  {
    if steps != [] {
      AtMostOneExchangePerEpisode(config, steps[..|steps| - 1]);
      DoKeepsOneWinner(config, Run(config, steps[..|steps| - 1]), steps[|steps| - 1]);
    }
  }

  // ---- Alone, and step by step ----

  function BreakerOf(w: World): Breaker {
    Breaker(w.state, w.failures, w.lastFailureNanos)
  }

  /** An operation started in `w` and carried through with no other in between. */
  ghost function Through(config: BreakerConfig, w: World, start: Step, now: Instant): World {
    var next := Proceed(start.op, now);
    Do(config, Do(config, Do(config, Do(config, w, start), next), next), next)
  }

  /** A request alone is the sequential `AllowRequest`. */
  lemma AllowAlone(config: BreakerConfig, w: World, op: OpId, now: Instant)
    requires op !in w.ops && OneWinnerEach(w)
    ensures var w' := Through(config, w, StartAllow(op), now);
            var (b, allowed) := AllowRequest(config, BreakerOf(w), now);
            BreakerOf(w') == b && op in w'.ops && w'.ops[op] == AllowDone(allowed)
  {
  }

  /** A success alone is the sequential `RecordSuccess`. */
  lemma SuccessAlone(config: BreakerConfig, w: World, op: OpId, now: Instant)
    requires op !in w.ops
    ensures var w' := Through(config, w, StartSuccess(op), now);
            BreakerOf(w') == RecordSuccess(BreakerOf(w)) && op in w'.ops && w'.ops[op].SuccessDone?
  {
  }

  /** A failure alone is the sequential `RecordFailure`. */
  lemma FailureAlone(config: BreakerConfig, w: World, op: OpId, now: Instant)
    requires op !in w.ops
    ensures var w' := Through(config, w, StartFailure(op), now);
            && BreakerOf(w') == RecordFailure(config, BreakerOf(w), now)
            && op in w'.ops && w'.ops[op] == FailureDone(w.failures + 1)
  {
  }

  /** Under any interleaving, a request goes for the exchange exactly when the timeout since the failure is over. */
  lemma ExchangeExactlyWhenDue(config: BreakerConfig, w: World, op: OpId, now: Instant)
    requires op in w.ops && w.ops[op].ReadingTime?
    ensures Do(config, w, Proceed(op, now))
         == Move(w, op, if Due(config, w.lastFailureNanos, now) then Exchanging else AllowDone(false))
  {
  }

  /** Two requests race for the exchange: one wins it, and the loser, finding the circuit half open, passes too. */
  lemma LoserPassesToo(config: BreakerConfig, w: World, a: OpId, b: OpId, now: Instant)
    requires w.state == Open && OneWinnerEach(w) && a != b && a in w.ops && b in w.ops
    requires w.ops[a].Exchanging? && w.ops[b].Exchanging?
    ensures var won := Do(config, w, Proceed(a, now));
            var both := Do(config, Do(config, won, Proceed(b, now)), Proceed(b, now));
            && won.state == both.state == HalfOpen
            && both.ops == w.ops[a := AllowDone(true)][b := AllowDone(true)]
            && both.exchanges == won.exchanges && |both.exchanges| == |w.exchanges|
  {
  }

  /** A loser that finds the circuit closed or open again by then is turned away. */
  lemma LoserTurnedAway(config: BreakerConfig, w: World, op: OpId, now: Instant)
    requires w.state != Open && op in w.ops && w.ops[op].Exchanging?
    ensures var lost := Do(config, w, Proceed(op, now));
            && lost.state == w.state
            && forall later: World | later.ops == lost.ops && later.state != HalfOpen ::
                 Do(config, later, Proceed(op, now)) == Move(later, op, AllowDone(false))
  {
  }

  /** The circuit leaves Closed only for a failure at or over the threshold. */
  ghost predicate OpensJustified(config: BreakerConfig, w: World) {
    && (forall op | op in w.ops && w.ops[op].StoringOpen? ::
          w.state == Closed ==> w.ops[op].number >= config.failureThreshold)
    && (w.state != Closed ==> w.failures >= Max(1, config.failureThreshold))
    && (forall op | op in w.ops && w.ops[op].InFailure() :: 1 <= w.ops[op].number <= w.failures)
  }

  // ---- Runs of failures and requests only ----

  ghost predicate NoSuccesses(steps: seq<Step>) {
    forall i | 0 <= i < |steps| :: !steps[i].StartSuccess?
  }

  ghost function FailureOps(w: World): set<OpId> {
    set op | op in w.ops && w.ops[op].InFailure()
  }

  /** The failure numbers handed out are 1 .. failures, each to one operation. */
  ghost predicate NumbersAreExact(w: World) {
    && |FailureOps(w)| == w.failures
    && (forall op | op in FailureOps(w) :: 1 <= w.ops[op].number <= w.failures)
    && (forall op, op' | op in FailureOps(w) && op' in FailureOps(w) && op != op' ::
          w.ops[op].number != w.ops[op'].number)
    && (w.failures > 0 ==> exists op :: op in FailureOps(w) && w.ops[op].number == w.failures)
  }

  /** Every finished Open episode had exactly one winner; the last one has, if the circuit is half open. */
  ghost predicate EpisodesTurnOver(w: World) {
    && OneWinnerEach(w)
    && (forall i | 0 <= i < |w.exchanges| - 1 :: w.exchanges[i] == 1)
    && (w.state == HalfOpen ==> w.exchanges != [] && w.exchanges[|w.exchanges| - 1] == 1)
    && (w.state == Closed ==> w.exchanges == [])
  }

  /** A finished failure at or over the threshold keeps the circuit from being closed. */
  ghost predicate TrippedStaysTripped(config: BreakerConfig, w: World) {
    forall op | op in w.ops && w.ops[op].FailureDone? && w.ops[op].number >= config.failureThreshold ::
      w.state != Closed
  }

  ghost predicate FailInv(config: BreakerConfig, w: World) {
    && (forall op | op in w.ops :: !w.ops[op].InSuccess())
    && NumbersAreExact(w)
    && EpisodesTurnOver(w)
    && TrippedStaysTripped(config, w)
  }

  lemma StartFailureAdds(config: BreakerConfig, w: World, op: OpId)
    requires op !in w.ops
    ensures var w' := Do(config, w, StartFailure(op));
            && w'.ops == w.ops[op := StoringTime(w.failures + 1)] && w'.failures == w.failures + 1
            && FailureOps(w') == FailureOps(w) + {op} && |FailureOps(w')| == |FailureOps(w)| + 1
  {
    var w' := Do(config, w, StartFailure(op));
    assert FailureOps(w') == FailureOps(w) + {op};
    assert op !in FailureOps(w);
  }

  lemma StartFailureKeepsNumbers(config: BreakerConfig, w: World, op: OpId)
    requires NumbersAreExact(w) && op !in w.ops
    ensures NumbersAreExact(Do(config, w, StartFailure(op)))
  {
    var w' := Do(config, w, StartFailure(op));
    StartFailureAdds(config, w, op);
    assert op in FailureOps(w') && w'.ops[op].number == w'.failures;
    forall a, b | a in FailureOps(w') && b in FailureOps(w') && a != b ensures w'.ops[a].number != w'.ops[b].number {
      assert a == op || a in FailureOps(w);
      assert b == op || b in FailureOps(w);
    }
  }

  /** Any other step leaves every failure number where it is. */
  lemma OtherStepsKeepFailures(config: BreakerConfig, w: World, step: Step)
    requires !step.StartFailure? && !step.StartSuccess?
    requires forall op | op in w.ops :: !w.ops[op].InSuccess()
    ensures var w' := Do(config, w, step);
            && w'.failures == w.failures
            && w.ops.Keys <= w'.ops.Keys
            && forall op | op in w'.ops ::
                 && !w'.ops[op].InSuccess()
                 && (w'.ops[op].InFailure() <==> op in w.ops && w.ops[op].InFailure())
                 && (w'.ops[op].InFailure() ==> w'.ops[op].number == w.ops[op].number)
  {
  }

  lemma OtherStepsKeepNumbers(config: BreakerConfig, w: World, w': World)
    requires NumbersAreExact(w) && w'.failures == w.failures && w.ops.Keys <= w'.ops.Keys
    requires forall op | op in w'.ops ::
               && (w'.ops[op].InFailure() <==> op in w.ops && w.ops[op].InFailure())
               && (w'.ops[op].InFailure() ==> w'.ops[op].number == w.ops[op].number)
    ensures NumbersAreExact(w')
  {
    assert FailureOps(w') == FailureOps(w);
    if w.failures > 0 {
      var op :| op in FailureOps(w) && w.ops[op].number == w.failures;
      assert op in FailureOps(w') && w'.ops[op].number == w'.failures;
    }
  }

  lemma DoKeepsEpisodes(config: BreakerConfig, w: World, step: Step)
    requires EpisodesTurnOver(w) && !step.StartSuccess?
    requires forall op | op in w.ops :: !w.ops[op].InSuccess()
    ensures EpisodesTurnOver(Do(config, w, step))
    ensures w.state != Closed ==> Do(config, w, step).state != Closed
  {
  }

  lemma DoKeepsTripped(config: BreakerConfig, w: World, step: Step)
    requires TrippedStaysTripped(config, w) && !step.StartSuccess?
    requires forall op | op in w.ops :: !w.ops[op].InSuccess()
    ensures TrippedStaysTripped(config, Do(config, w, step))
  {
  }

  lemma DoKeepsFailInv(config: BreakerConfig, w: World, step: Step)
    requires FailInv(config, w) && !step.StartSuccess?
    ensures FailInv(config, Do(config, w, step))
    ensures w.state != Closed ==> Do(config, w, step).state != Closed
  {
    DoKeepsEpisodes(config, w, step);
    DoKeepsTripped(config, w, step);
    if step.StartFailure? {
      if step.op !in w.ops {
        StartFailureKeepsNumbers(config, w, step.op);
      }
    } else {
      OtherStepsKeepFailures(config, w, step);
      OtherStepsKeepNumbers(config, w, Do(config, w, step));
    }
  }

  lemma {:induction false} FailInvHolds(config: BreakerConfig, steps: seq<Step>)
    requires NoSuccesses(steps)
    ensures FailInv(config, Run(config, steps))
  {
    if steps != [] {
      FailInvHolds(config, steps[..|steps| - 1]);
      DoKeepsFailInv(config, Run(config, steps[..|steps| - 1]), steps[|steps| - 1]);
    } else {
      assert FailureOps(START) == {};
    }
  }

  /**
   Once an operation holding a failure number at or over the threshold has finished, the circuit is never
   closed again.
  */
  lemma {:induction false} NeverClosedAgain(config: BreakerConfig, steps: seq<Step>, n: nat, op: OpId)
    requires NoSuccesses(steps) && n <= |steps|
    requires op in Run(config, steps[..n]).ops
    requires Run(config, steps[..n]).ops[op].FailureDone?
    requires Run(config, steps[..n]).ops[op].number >= config.failureThreshold
    ensures Run(config, steps).state != Closed
    decreases |steps|
  {
    if n == |steps| {
      assert steps[..n] == steps;
      FailInvHolds(config, steps);
    } else {
      var init := steps[..|steps| - 1];
      assert init[..n] == steps[..n];
      NeverClosedAgain(config, init, n, op);
      FailInvHolds(config, init);
      DoKeepsFailInv(config, Run(config, init), steps[|steps| - 1]);
    }
  }

  /** No `record_failure` is still under way. */
  ghost predicate AllRecorded(w: World) {
    forall op | op in FailureOps(w) :: w.ops[op].FailureDone?
  }

  /**
   No trip is lost: when every recorded failure has finished and there are enough of them, the circuit is not
   closed, however the steps interleaved. The count is the number of failures recorded.
  */
  lemma EnoughFailuresTrip(config: BreakerConfig, steps: seq<Step>)
    requires NoSuccesses(steps)
    ensures var w := Run(config, steps);
            && w.failures == |FailureOps(w)|
            && (w.failures >= Max(1, config.failureThreshold) && AllRecorded(w) ==> w.state != Closed)
  {
    FailInvHolds(config, steps);
  }

  lemma DoKeepsJustified(config: BreakerConfig, w: World, step: Step)
    requires OpensJustified(config, w) && !step.StartSuccess?
    requires forall op | op in w.ops :: !w.ops[op].InSuccess()
    ensures OpensJustified(config, Do(config, w, step))
  {
  }

  lemma NoSuccessStarts(config: BreakerConfig, w: World, step: Step)
    requires !step.StartSuccess? && forall op | op in w.ops :: !w.ops[op].InSuccess()
    ensures var w' := Do(config, w, step); forall op | op in w'.ops :: !w'.ops[op].InSuccess()
  {
  }

  lemma {:induction false} OpensOnlyAtThreshold(config: BreakerConfig, steps: seq<Step>)
    requires NoSuccesses(steps)
    ensures OpensJustified(config, Run(config, steps))
    ensures forall op | op in Run(config, steps).ops :: !Run(config, steps).ops[op].InSuccess()
  {
    if steps != [] {
      OpensOnlyAtThreshold(config, steps[..|steps| - 1]);
      DoKeepsJustified(config, Run(config, steps[..|steps| - 1]), steps[|steps| - 1]);
      NoSuccessStarts(config, Run(config, steps[..|steps| - 1]), steps[|steps| - 1]);
    }
  }

  /** No premature trip either: once all have finished, closed exactly below max(1, threshold) failures. */
  lemma ClosedExactlyBelowThreshold(config: BreakerConfig, steps: seq<Step>)
    requires NoSuccesses(steps)
    ensures var w := Run(config, steps);
            && (w.failures < Max(1, config.failureThreshold) ==> w.state == Closed)
            && (AllRecorded(w) ==> (w.state == Closed <==> w.failures < Max(1, config.failureThreshold)))
  {
    OpensOnlyAtThreshold(config, steps);
    EnoughFailuresTrip(config, steps);
  }

  // ---- With successes the trip can be lost ----

  lemma RunSnoc(config: BreakerConfig, steps: seq<Step>, step: Step)
    ensures Run(config, steps + [step]) == Do(config, Run(config, steps), step)
  {
    assert (steps + [step])[..|steps|] == steps;
  }

  const ONE_FAILURE := BreakerConfig(1, 0)

  /** Threshold one, no timeout: a failure opens the circuit. */
  lemma FailureOpens() returns (steps: seq<Step>)
    ensures Run(ONE_FAILURE, steps) == World(Open, 1, 0, map[1 := FailureDone(1)], [0])
  {
    var c := ONE_FAILURE;
    steps := [];
    RunSnoc(c, steps, StartFailure(1));
    steps := steps + [StartFailure(1)];
    assert Run(c, steps) == World(Closed, 1, 0, map[1 := StoringTime(1)], []);
    RunSnoc(c, steps, Proceed(1, 0));
    steps := steps + [Proceed(1, 0)];
    assert Run(c, steps) == World(Closed, 1, 0, map[1 := LoadingForFailure(1)], []);
    RunSnoc(c, steps, Proceed(1, 0));
    steps := steps + [Proceed(1, 0)];
    assert Run(c, steps) == World(Closed, 1, 0, map[1 := StoringOpen(1)], []);
    RunSnoc(c, steps, Proceed(1, 0));
    steps := steps + [Proceed(1, 0)];
  }

  /** A request half-opens it, a success loads that. */
  lemma SuccessLoadsHalfOpen() returns (steps: seq<Step>)
    ensures Run(ONE_FAILURE, steps)
         == World(HalfOpen, 1, 0, map[1 := FailureDone(1), 2 := AllowDone(true), 3 := ResettingThenClosing], [1])
  {
    var c := ONE_FAILURE;
    steps := FailureOpens();
    RunSnoc(c, steps, StartAllow(2));
    steps := steps + [StartAllow(2)];
    RunSnoc(c, steps, Proceed(2, 0));
    steps := steps + [Proceed(2, 0)];
    assert Run(c, steps) == World(Open, 1, 0, map[1 := FailureDone(1), 2 := Exchanging], [0]);
    RunSnoc(c, steps, Proceed(2, 0));
    steps := steps + [Proceed(2, 0)];
    RunSnoc(c, steps, StartSuccess(3));
    steps := steps + [StartSuccess(3)];
  }

  lemma FailureOvertakesSuccess() returns (steps: seq<Step>)
    ensures Run(ONE_FAILURE, steps)
         == World(Open, 2, 0, map[1 := FailureDone(1), 2 := AllowDone(true), 3 := ResettingThenClosing,
                                  4 := FailureDone(2)], [1, 0])
  {
    var c := ONE_FAILURE;
    steps := SuccessLoadsHalfOpen();
    RunSnoc(c, steps, StartFailure(4));
    steps := steps + [StartFailure(4)];
    RunSnoc(c, steps, Proceed(4, 0));
    steps := steps + [Proceed(4, 0)];
    RunSnoc(c, steps, Proceed(4, 0));
    steps := steps + [Proceed(4, 0)];
    assert Run(c, steps).ops[4] == StoringOpen(2);
    RunSnoc(c, steps, Proceed(4, 0));
    steps := steps + [Proceed(4, 0)];
  }

  /**
   The restriction to failures and requests is needed: a success that loaded HalfOpen before a later failure
   reopened the circuit closes it afterwards.
  */
  lemma StaleSuccessCloses()
    ensures exists steps: seq<Step>, op: OpId ::
      var w := Run(ONE_FAILURE, steps);
      w.state == Closed && w.failures == 0 && op in w.ops && w.ops[op] == FailureDone(2)
  {
    var c := ONE_FAILURE;
    var steps := FailureOvertakesSuccess();
    RunSnoc(c, steps, Proceed(3, 0));
    steps := steps + [Proceed(3, 0)];
    assert Run(c, steps).ops[3] == StoringClosed && Run(c, steps).ops[4] == FailureDone(2);
    RunSnoc(c, steps, Proceed(3, 0));
    steps := steps + [Proceed(3, 0)];
    var w := Run(c, steps);
    assert w.state == Closed && 4 in w.ops && w.ops[4] == FailureDone(2);
  }

  // ---- Exactly when an open circuit closes without a test ----

  /** A `record_success` that loaded HalfOpen has not stored Closed yet. */
  ghost predicate ClosePending(w: World) {
    exists op :: op in w.ops && (w.ops[op].ResettingThenClosing? || w.ops[op].StoringClosed?)
  }

  /** The steps take the circuit from Open straight to Closed, never through HalfOpen. */
  ghost predicate ClosesUntested(config: BreakerConfig, w: World, steps: seq<Step>)
    decreases |steps|
  {
    && w.state == Open
    && steps != []
    && var next := Do(config, w, steps[0]);
       if |steps| == 1 then next.state == Closed else ClosesUntested(config, next, steps[1..])
  }

  /** While the circuit is open no operation sets out to close it, and only one that has can. */
  lemma OpenStep(config: BreakerConfig, w: World, step: Step)
    requires w.state == Open && !ClosePending(w)
    ensures !ClosePending(Do(config, w, step)) && Do(config, w, step).state != Closed
  {
  }

  lemma {:induction false} NothingPendingNothingCloses(config: BreakerConfig, w: World, steps: seq<Step>)
    requires w.state == Open && !ClosePending(w)
    ensures !ClosesUntested(config, w, steps)
    decreases |steps|
  {
    if steps != [] {
      var next := Do(config, w, steps[0]);
      OpenStep(config, w, steps[0]);
      if next.state == Open {
        NothingPendingNothingCloses(config, next, steps[1..]);
      }
    }
  }

  ghost predicate CanCloseUntested(config: BreakerConfig, w: World) {
    exists steps: seq<Step> :: ClosesUntested(config, w, steps)
  }

  lemma PendingCloses(config: BreakerConfig, w: World, op: OpId)
    requires w.state == Open && op in w.ops && (w.ops[op].ResettingThenClosing? || w.ops[op].StoringClosed?)
    ensures CanCloseUntested(config, w)
  {
    var step := Proceed(op, 0);
    if w.ops[op].StoringClosed? {
      assert ClosesUntested(config, w, [step]);
    } else {
      var next := Do(config, w, step);
      assert ClosesUntested(config, next, [step]);
      assert [step, step][1..] == [step];
      assert ClosesUntested(config, w, [step, step]);
    }
  }

  /**
   Wherever the circuit is open, some continuation takes it straight back to Closed if and only if a success
   that loaded HalfOpen is still under way.
  */
  lemma UntestedCloseExactly(config: BreakerConfig, w: World)
    requires w.state == Open
    ensures CanCloseUntested(config, w) <==> ClosePending(w)
  {
    if ClosePending(w) {
      var op :| op in w.ops && (w.ops[op].ResettingThenClosing? || w.ops[op].StoringClosed?);
      PendingCloses(config, w, op);
    } else {
      forall steps: seq<Step> ensures !ClosesUntested(config, w, steps) {
        NothingPendingNothingCloses(config, w, steps);
      }
    }
  }
}

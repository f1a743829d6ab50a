/**
 The circuit breaker of src/application/circuit_breaker.rs as one thread sees it, and as the limiter drives
 it: ask, run the operation, record how it went.
*/
module CircuitBreakers {
  import opened Machine
  import opened Arithmetic

  datatype CircuitState = Closed | Open | HalfOpen

  datatype BreakerConfig = BreakerConfig(failureThreshold: nat, recoveryTimeout: nat)

  /** Times are relative to the breaker's epoch. */
  datatype Breaker = Breaker(state: CircuitState, consecutiveFailures: nat, lastFailureNanos: u64)

  const NEW_BREAKER := Breaker(Closed, 0, 0)

  /** May the operation run? In the Open state, only if the timeout is over, and then as a test. */
  function AllowRequest(config: BreakerConfig, b: Breaker, now: Instant): (Breaker, bool) {
    match b.state
    case Closed => (b, true)
    case HalfOpen => (b, true)
    case Open =>
      if SaturatingSince(now, b.lastFailureNanos) >= config.recoveryTimeout
      then (b.(state := HalfOpen), true)
      else (b, false)
  }

  function RecordSuccess(b: Breaker): Breaker {
    match b.state
    case HalfOpen => b.(consecutiveFailures := 0, state := Closed)
    case Closed => b.(consecutiveFailures := 0)
    case Open => b
  }

  function RecordFailure(config: BreakerConfig, b: Breaker, now: Instant): Breaker {
    var failures := b.consecutiveFailures + 1;
    var state :=
      match b.state
      case HalfOpen => Open
      case Closed => if failures >= config.failureThreshold then Open else Closed
      case Open => Open;
    Breaker(state, failures, ToNanos(now))
  }

  class CircuitBreaker {
    const config: BreakerConfig
    var state: CircuitState
    var consecutiveFailures: nat
    var lastFailureTimeNanos: u64

    function Value(): Breaker
      reads this
    {
      Breaker(state, consecutiveFailures, lastFailureTimeNanos)
    }

    constructor (config: BreakerConfig)
      ensures this.config == config && Value() == NEW_BREAKER
    {
      this.config := config;
      state, consecutiveFailures, lastFailureTimeNanos := Closed, 0, 0;
    }

    method Allow(now: Instant) returns (allowed: bool)
      modifies this
      ensures (Value(), allowed) == AllowRequest(config, old(Value()), now)
    {
      match state {
        case Closed =>
          allowed := true;
        case Open =>
          if SaturatingSince(now, lastFailureTimeNanos) >= config.recoveryTimeout {
            var exchanged := state == Open;
            if exchanged {
              state := HalfOpen;
            }
            allowed := exchanged || state == HalfOpen;
          } else {
            allowed := false;
          }
        case HalfOpen =>
          allowed := true;
      }
    }

    method Succeeded()
      modifies this
      ensures Value() == RecordSuccess(old(Value()))
    {
      match state {
        case HalfOpen =>
          consecutiveFailures := 0;
          state := Closed;
        case Closed =>
          consecutiveFailures := 0;
        case Open =>
      }
    }

    method Failed(now: Instant)
      modifies this
      ensures Value() == RecordFailure(config, old(Value()), now)
    {
      var failures := consecutiveFailures + 1;
      consecutiveFailures := failures;
      lastFailureTimeNanos := ToNanos(now);
      match state {
        case HalfOpen =>
          state := Open;
        case Closed =>
          if failures >= config.failureThreshold {
            state := Open;
          }
        case Open =>
      }
    }

    method Reset()
      modifies this
      ensures Value() == old(Value()).(state := Closed, consecutiveFailures := 0)
    {
      state := Closed;
      consecutiveFailures := 0;
    }
  }

  // ---- Recovery ----

  /** Is the recovery timeout over at `now`? */
  ghost predicate Due(config: BreakerConfig, lastFailure: int, now: Instant) {
    config.recoveryTimeout == 0 || now >= lastFailure + config.recoveryTimeout
  }

  /**
   An open circuit lets a request through, as a test, exactly when the timeout is over, and becomes half open
   exactly then; any other circuit lets every request through and does not change.
  */
  lemma RecoveryExactly(config: BreakerConfig, b: Breaker, now: Instant)
    ensures var (b', allowed) := AllowRequest(config, b, now);
            && (allowed <==> b.state == Open ==> Due(config, b.lastFailureNanos, now))
            && b' == (if b.state == Open && allowed then Breaker(HalfOpen, b.consecutiveFailures, b.lastFailureNanos)
                      else b)
  {
  }

  // ---- Driven by the limiter ----

  /** One `check_event`: when it asks, when it would record a failure, and whether the operation panics. */
  datatype Attempt = Attempt(at: Instant, failedAt: Instant, panics: bool)

  function Guarded(config: BreakerConfig, b: Breaker, a: Attempt): Breaker {
    var (asked, allowed) := AllowRequest(config, b, a.at);
    if !allowed then asked
    else if a.panics then RecordFailure(config, asked, a.failedAt)
    else RecordSuccess(asked)
  }

  /** A test that succeeds closes the circuit and clears the count; one that fails opens it for another timeout. */
  lemma TestDecides(config: BreakerConfig, b: Breaker, a: Attempt)
    requires b.state == Open && Due(config, b.lastFailureNanos, a.at)
    ensures Guarded(config, b, a) == if a.panics then Breaker(Open, b.consecutiveFailures + 1, ToNanos(a.failedAt))
                                     else Breaker(Closed, 0, b.lastFailureNanos)
  {
    RecoveryExactly(config, b, a.at);
  }

  ghost function AfterAttempts(config: BreakerConfig, b: Breaker, attempts: seq<Attempt>): Breaker {
    if attempts == [] then b
    else Guarded(config, AfterAttempts(config, b, attempts[..|attempts| - 1]), attempts[|attempts| - 1])
  }

  /** Did the last operation of the sequence run at all? */
  ghost predicate LastRan(config: BreakerConfig, b: Breaker, attempts: seq<Attempt>)
    requires attempts != []
  {
    AllowRequest(config, AfterAttempts(config, b, attempts[..|attempts| - 1]), attempts[|attempts| - 1].at).1
  }

  /** Operations that ran and panicked since the last one that ran and did not. */
  ghost function FailureStreak(config: BreakerConfig, attempts: seq<Attempt>): nat {
    if attempts == [] then 0
    else
      var before := FailureStreak(config, attempts[..|attempts| - 1]);
      if !LastRan(config, NEW_BREAKER, attempts) then before
      else if attempts[|attempts| - 1].panics then before + 1
      else 0
  }

  /**
   Between calls the breaker is never half open, it counts the current streak of failures, and it is closed
   exactly while the streak is below the threshold (a threshold of zero acts as one). No assumption on the
   clock.
  */
  lemma {:induction false} ClosedExactlyBelowThreshold(config: BreakerConfig, attempts: seq<Attempt>)
    ensures var b := AfterAttempts(config, NEW_BREAKER, attempts);
            && b.state != HalfOpen
            && b.consecutiveFailures == FailureStreak(config, attempts)
            && (b.state == Closed <==> FailureStreak(config, attempts) < Max(1, config.failureThreshold))
  {
    if attempts != [] {
      ClosedExactlyBelowThreshold(config, attempts[..|attempts| - 1]);
    }
  }

  /** The reference: no states, only the failures since the last success and when the last one was. */
  datatype Health = Health(streak: nat, lastFailed: u64)

  ghost predicate Tripped(config: BreakerConfig, h: Health) {
    h.streak >= Max(1, config.failureThreshold)
  }

  ghost predicate Runs(config: BreakerConfig, h: Health, at: Instant) {
    Tripped(config, h) ==> Due(config, h.lastFailed, at)
  }

  ghost function HealthAfter(config: BreakerConfig, attempts: seq<Attempt>): Health {
    if attempts == [] then Health(0, 0)
    else
      var before := HealthAfter(config, attempts[..|attempts| - 1]);
      var a := attempts[|attempts| - 1];
      if !Runs(config, before, a.at) then before
      else if a.panics then Health(before.streak + 1, ToNanos(a.failedAt))
      else Health(0, before.lastFailed)
  }

  /** The breaker refines the reference: what it is between calls, and which operations run. */
  lemma {:induction false} BreakerIsHealth(config: BreakerConfig, attempts: seq<Attempt>)
    ensures var (b, h) := (AfterAttempts(config, NEW_BREAKER, attempts), HealthAfter(config, attempts));
            && b == Breaker(if Tripped(config, h) then Open else Closed, h.streak, h.lastFailed)
            && forall at: Instant :: AllowRequest(config, b, at).1 <==> Runs(config, h, at)
  {
    if attempts != [] {
      BreakerIsHealth(config, attempts[..|attempts| - 1]);
    }
    var b := AfterAttempts(config, NEW_BREAKER, attempts);
    forall at: Instant ensures AllowRequest(config, b, at).1 <==> Runs(config, HealthAfter(config, attempts), at) {
      RecoveryExactly(config, b, at);
    }
  }

  ghost function RanCount(config: BreakerConfig, b: Breaker, attempts: seq<Attempt>): nat {
    if attempts == [] then 0
    else RanCount(config, b, attempts[..|attempts| - 1]) + if LastRan(config, b, attempts) then 1 else 0
  }

  /** All operations fail, and the clock, which fits in 64 bits, does not step back. */
  ghost predicate FailingSpell(b: Breaker, attempts: seq<Attempt>) {
    && b.state == Open
    && (forall i | 0 <= i < |attempts| ::
          attempts[i].panics && b.lastFailureNanos <= attempts[i].at <= attempts[i].failedAt <= U64_MAX)
    && (forall i, j | 0 <= i < j < |attempts| :: attempts[i].failedAt <= attempts[j].at)
  }

  lemma OneFailingAttempt(config: BreakerConfig, b: Breaker, a: Attempt)
    requires b.state == Open && a.panics && b.lastFailureNanos <= a.at <= a.failedAt <= U64_MAX
    ensures var b' := Guarded(config, b, a);
            && b'.state == Open && b'.lastFailureNanos <= a.failedAt
            && (if AllowRequest(config, b, a.at).1
                then a.at >= b.lastFailureNanos + config.recoveryTimeout && b'.lastFailureNanos == a.failedAt
                else b' == b)
  {
  }

  /** Each operation that runs pushes the last failure at least one timeout further. */
  lemma {:induction false} SpellPushesLastFailure(config: BreakerConfig, b: Breaker, attempts: seq<Attempt>)
    requires FailingSpell(b, attempts)
    ensures var b' := AfterAttempts(config, b, attempts);
            && b'.state == Open
            && (attempts == [] ==> b' == b)
            && (attempts != [] ==> b'.lastFailureNanos <= attempts[|attempts| - 1].failedAt)
            && b'.lastFailureNanos >= b.lastFailureNanos + RanCount(config, b, attempts) * config.recoveryTimeout
  {
    if attempts != [] {
      var init := attempts[..|attempts| - 1];
      SpellPushesLastFailure(config, b, init);
      OneFailingAttempt(config, AfterAttempts(config, b, init), attempts[|attempts| - 1]);
      TimesSuccessor(RanCount(config, b, init), config.recoveryTimeout);
    }
  }

  lemma {:induction false} RanCountByTime(config: BreakerConfig, b: Breaker, attempts: seq<Attempt>, spell: nat)
    requires FailingSpell(b, attempts)
    requires forall i | 0 <= i < |attempts| :: attempts[i].at <= b.lastFailureNanos + spell
    ensures RanCount(config, b, attempts) * config.recoveryTimeout <= spell
  {
    if attempts != [] {
      var init := attempts[..|attempts| - 1];
      RanCountByTime(config, b, init, spell);
      SpellPushesLastFailure(config, b, init);
      OneFailingAttempt(config, AfterAttempts(config, b, init), attempts[|attempts| - 1]);
      TimesSuccessor(RanCount(config, b, init), config.recoveryTimeout);
    }
  }

  /** When the last of the failing attempts failed. */
  ghost function LastFailed(b: Breaker, attempts: seq<Attempt>): int {
    if attempts == [] then b.lastFailureNanos else attempts[|attempts| - 1].failedAt
  }

  /** Each attempt comes a timeout or more after the failure before it. */
  ghost predicate Spaced(config: BreakerConfig, b: Breaker, attempts: seq<Attempt>) {
    attempts == [] ||
    var init := attempts[..|attempts| - 1];
    Spaced(config, b, init) && attempts[|attempts| - 1].at >= LastFailed(b, init) + config.recoveryTimeout
  }

  /** The bound from below: in a failing spell whose attempts are spaced so, every one of them runs. */
  lemma {:induction false} SpacedAttemptsRun(config: BreakerConfig, b: Breaker, attempts: seq<Attempt>)
    requires FailingSpell(b, attempts) && Spaced(config, b, attempts)
    ensures RanCount(config, b, attempts) == |attempts|
    ensures AfterAttempts(config, b, attempts).state == Open
    ensures AfterAttempts(config, b, attempts).lastFailureNanos == LastFailed(b, attempts)
  {
    if attempts != [] {
      var init := attempts[..|attempts| - 1];
      SpacedAttemptsRun(config, b, init);
      OneFailingAttempt(config, AfterAttempts(config, b, init), attempts[|attempts| - 1]);
      RecoveryExactly(config, AfterAttempts(config, b, init), attempts[|attempts| - 1].at);
    }
  }

  /**
   A failing spell of length `spell` after the circuit opened lets at most spell / timeout operations run; all
   other events pass unthrottled.
  */
  lemma SpellBoundsOperations(config: BreakerConfig, b: Breaker, attempts: seq<Attempt>, spell: nat)
    requires FailingSpell(b, attempts) && config.recoveryTimeout > 0
    requires forall i | 0 <= i < |attempts| :: attempts[i].at <= b.lastFailureNanos + spell
    ensures RanCount(config, b, attempts) <= spell / config.recoveryTimeout
  {
    RanCountByTime(config, b, attempts, spell);
    QuotientBound(RanCount(config, b, attempts), config.recoveryTimeout, spell);
  }
}

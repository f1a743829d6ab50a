/**
 The breaker inside the whole system: what every run of checks, evictions and emitter steps does to it.
*/
module BreakerRuns {
  import opened Machine
  import opened CircuitBreakers
  import opened Throttle
  import opened ThrottleTheory

  /** A check drives the breaker as one guarded operation: it asks, and reports success or failure. */
  lemma CheckGuards(config: LimiterConfig, core: Core, e: Event)
    ensures Check(config, core, e).0.breaker
         == Guarded(config.breaker, core.breaker, Attempt(e.at, e.failedAt, e.panics))
  {
  }

  /** The emitter never touches it. */
  lemma EmitterLeavesBreaker(config: LimiterConfig, w: World, step: Step)
    requires LedgersValid(w) && Enabled(config, w, step) && !step.CheckEvent?
    ensures Do(config, w, step).core.breaker == w.core.breaker
  {
  }

  /** The attempts a run makes: its events, in order. */
  ghost function AttemptsOf(steps: seq<Step>): seq<Attempt> {
    if steps == [] then []
    else
      AttemptsOf(steps[..|steps| - 1])
      + match steps[|steps| - 1]
        case CheckEvent(e) => [Attempt(e.at, e.failedAt, e.panics)]
        case _ => []
  }

  lemma {:induction false} BreakerFollowsAttempts(config: LimiterConfig, ws: seq<World>, steps: seq<Step>, n: nat)
    requires IsRun(config, ws, steps) && n <= |steps|
    ensures ws[n].core.breaker == AfterAttempts(config.breaker, NEW_BREAKER, AttemptsOf(steps[..n]))
  {
    if n > 0 {
      BreakerFollowsAttempts(config, ws, steps, n - 1);
      assert steps[..n][..n - 1] == steps[..n - 1];
      var before := AttemptsOf(steps[..n - 1]);
      match steps[n - 1] {
        case CheckEvent(e) =>
          CheckGuards(config, ws[n - 1].core, e);
          assert AttemptsOf(steps[..n]) == before + [Attempt(e.at, e.failedAt, e.panics)];
        case _ =>
          EmitterLeavesBreaker(config, ws[n - 1], steps[n - 1]);
          assert before + [] == before;
      }
    }
  }

  /**
   In every reachable state the breaker counts the checks that ran and panicked since the last that ran and did
   not, knows when the last of them was, and is closed exactly while they are fewer than max(1, threshold); and
   a check reaches its policy exactly when it runs by that count and does not panic. The history behind it is
   read off the events alone.
  */
  lemma BreakerInEveryRun(config: LimiterConfig, ws: seq<World>, steps: seq<Step>, n: nat)
    requires IsRun(config, ws, steps) && n <= |steps|
    ensures var (b, h) := (ws[n].core.breaker, HealthAfter(config.breaker, AttemptsOf(steps[..n])));
            && b.consecutiveFailures == h.streak && b.lastFailureNanos == h.lastFailed && b.state != HalfOpen
            && (b.state == Closed <==> h.streak < Max(1, config.breaker.failureThreshold))
            && forall e: Event :: Consulted(config, ws[n].core, e) <==> Runs(config.breaker, h, e.at) && !e.panics
  {
    BreakerFollowsAttempts(config, ws, steps, n);
    BreakerIsHealth(config.breaker, AttemptsOf(steps[..n]));
  }
}

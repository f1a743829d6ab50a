/**
 The rate limiting policies as values, one constructor per policy struct of src/domain/policy.rs, the
 step each takes on an event, and runs of a policy over a trace of timestamps.
*/
module Policies {
  import opened Wrappers
  import opened Machine

  datatype Decision = Allow | Suppress

  datatype PolicyError =
    | ZeroMaxCount
    | ZeroMaxEvents
    | ZeroWindowDuration
    | ZeroCapacity
    | ZeroRefillRate

  datatype Policy =
    | CountBased(maxCount: u64, currentCount: u64)
    | TimeWindow(maxEvents: nat, window: nat, stamps: seq<Instant>)
    | ExponentialBackoff(eventCount: u64, nextAllowed: u64)
    | TokenBucket(capacity: real, refillRate: real, tokens: real, lastRefill: Option<Instant>)
  {
    /** What the constructors establish and every step keeps. */
    ghost predicate Valid() {
      match this
      case CountBased(maxCount, _) => maxCount > 0
      case TimeWindow(maxEvents, window, stamps) => maxEvents > 0 && window > 0 && |stamps| <= maxEvents
      case ExponentialBackoff(_, _) => true
      case TokenBucket(capacity, refillRate, tokens, _) =>
        capacity > 0.0 && refillRate > 0.0 && 0.0 <= tokens <= capacity
    }

    /** The `reset` methods. */
    function Reset(): Policy {
      match this
      case CountBased(maxCount, _) => CountBased(maxCount, 0)
      case TimeWindow(maxEvents, window, _) => TimeWindow(maxEvents, window, [])
      case ExponentialBackoff(_, _) => ExponentialBackoff(0, 1)
      case TokenBucket(capacity, refillRate, _, _) => TokenBucket(capacity, refillRate, capacity, None)
    }

    /** As built by a constructor, or just reset. */
    ghost predicate Fresh() {
      Valid() && this == Reset()
    }
  }

  // ---- Constructors ----

  function NewCountBased(maxCount: u64): (r: Result<Policy, PolicyError>)
    ensures r.Success? <==> maxCount > 0
    ensures r.Success? ==> r.value.CountBased? && r.value.Fresh()
    ensures r.Failure? ==> r.error == ZeroMaxCount
  {
    if maxCount == 0 then Failure(ZeroMaxCount) else Success(CountBased(maxCount, 0))
  }

  function NewTimeWindow(maxEvents: nat, window: nat): (r: Result<Policy, PolicyError>)
    ensures r.Success? <==> maxEvents > 0 && window > 0
    ensures r.Success? ==> r.value.TimeWindow? && r.value.Fresh()
    ensures r.Failure? ==> r.error == if maxEvents == 0 then ZeroMaxEvents else ZeroWindowDuration
  {
    if maxEvents == 0 then Failure(ZeroMaxEvents)
    else if window == 0 then Failure(ZeroWindowDuration)
    else Success(TimeWindow(maxEvents, window, []))
  }

  function NewTokenBucket(capacity: real, refillRate: real): (r: Result<Policy, PolicyError>)
    ensures r.Success? <==> capacity > 0.0 && refillRate > 0.0
    ensures r.Success? ==> r.value.TokenBucket? && r.value.Fresh()
    ensures r.Failure? ==> r.error == if capacity <= 0.0 then ZeroCapacity else ZeroRefillRate
  {
    if capacity <= 0.0 then Failure(ZeroCapacity)
    else if refillRate <= 0.0 then Failure(ZeroRefillRate)
    else Success(TokenBucket(capacity, refillRate, capacity, None))
  }

  const NEW_BACKOFF: Policy := ExponentialBackoff(0, 1)

  // ---- One event ----

  /** Tokens gained in `nanos` nanoseconds at `rate` tokens per second. */
  function Gain(rate: real, nanos: int): real {
    (nanos as real / 1000000000.0) * rate
  }

  function MinReal(a: real, b: real): real {
    if a <= b then a else b
  }

  /** `TokenBucketPolicy::refill`. A clock that steps back only moves the refill time. */
  function Refill(p: Policy, now: Instant): Policy
    requires p.TokenBucket?
  {
    match p.lastRefill
    case None => p.(lastRefill := Some(now))
    case Some(last) =>
      if now < last then p.(lastRefill := Some(now))
      else p.(tokens := MinReal(p.tokens + Gain(p.refillRate, now - last), p.capacity),
              lastRefill := Some(now))
  }

  /** `TimeWindowPolicy::expire_old_events`: pop the front while it is older than the window. */
  function Expire(stamps: seq<Instant>, now: Instant, window: nat): (rest: seq<Instant>)
    ensures |rest| <= |stamps|
  {
    if |stamps| > 0 && SaturatingSince(now, stamps[0]) > window then Expire(stamps[1..], now, window) else stamps
  }

  /** `Policy::register_event`: the state after the event and the decision. */
  function Register(p: Policy, now: Instant): (Policy, Decision) {
    match p
    case CountBased(maxCount, currentCount) =>
      var n := WrappingInc(currentCount);
      (CountBased(maxCount, n), if n <= maxCount then Allow else Suppress)
    case TimeWindow(maxEvents, window, stamps) =>
      var recent := Expire(stamps, now, window);
      if |recent| < maxEvents
      then (TimeWindow(maxEvents, window, recent + [now]), Allow)
      else (TimeWindow(maxEvents, window, recent), Suppress)
    case ExponentialBackoff(eventCount, nextAllowed) =>
      var n := WrappingInc(eventCount);
      if n == nextAllowed
      then (ExponentialBackoff(n, SaturatingDouble(nextAllowed)), Allow)
      else (ExponentialBackoff(n, nextAllowed), Suppress)
    case TokenBucket(_, _, _, _) =>
      var filled := Refill(p, now);
      if filled.tokens >= 1.0
      then (filled.(tokens := filled.tokens - 1.0), Allow)
      else (filled, Suppress)
  }

  /** The rate is in tokens per second and time in nanoseconds. */
  lemma GainPerSecond(rate: real, nanos: int)
    ensures Gain(rate, nanos) * 1000000000.0 == rate * nanos as real
  {
    var x := nanos as real / 1000000000.0;
    assert x * 1000000000.0 == nanos as real;
    assert (x * rate) * 1000000000.0 == (x * 1000000000.0) * rate;
  }

  lemma GainIsAdditive(rate: real, a: int, b: int)
    ensures Gain(rate, a) + Gain(rate, b) == Gain(rate, a + b)
  {
    var x, y := a as real / 1000000000.0, b as real / 1000000000.0;
    assert (a + b) as real / 1000000000.0 == x + y;
    assert x * rate + y * rate == (x + y) * rate;
  }

  lemma GainIsNonnegative(rate: real, a: int)
    requires rate > 0.0 && a >= 0
    ensures Gain(rate, a) >= 0.0
  {
    var x := a as real / 1000000000.0;
    assert x >= 0.0;
    assert x * rate >= 0.0;
  }

  /** Every policy keeps its invariant on every event, whatever the clock does. */
  lemma RegisterKeepsValid(p: Policy, now: Instant)
    requires p.Valid()
    ensures Register(p, now).0.Valid()
    ensures Register(p, now).0.Reset() == p.Reset()
  {
    if p.TokenBucket? && p.lastRefill.Some? && now >= p.lastRefill.value {
      GainIsNonnegative(p.refillRate, now - p.lastRefill.value);
    }
  }

  /** Resetting a policy is building it again. */
  lemma ResetIsNew(p: Policy)
    requires p.Valid()
    ensures match p
            case CountBased(maxCount, _) => NewCountBased(maxCount) == Success(p.Reset())
            case TimeWindow(maxEvents, window, _) => NewTimeWindow(maxEvents, window) == Success(p.Reset())
            case ExponentialBackoff(_, _) => NEW_BACKOFF == p.Reset()
            case TokenBucket(capacity, rate, _, _) => NewTokenBucket(capacity, rate) == Success(p.Reset())
  {
  }

  // ---- Runs ----

  /** The state of `p` after the first `n` events of the trace. */
  function After(p: Policy, ts: seq<Instant>, n: nat): Policy
    requires n <= |ts|
  {
    if n == 0 then p else Register(After(p, ts, n - 1), ts[n - 1]).0
  }

  function DecisionAt(p: Policy, ts: seq<Instant>, n: nat): Decision
    requires n < |ts|
  {
    Register(After(p, ts, n), ts[n]).1
  }

  function Decisions(p: Policy, ts: seq<Instant>): (ds: seq<Decision>)
    ensures |ds| == |ts|
    ensures forall n | 0 <= n < |ts| :: ds[n] == DecisionAt(p, ts, n)
  {
    seq(|ts|, n requires 0 <= n < |ts| => DecisionAt(p, ts, n))
  }

  /** How many of the events with index in `[i, j)` were allowed. */
  function AllowedIn(ds: seq<Decision>, i: nat, j: nat): nat
    requires i <= j <= |ds|
    decreases j
  {
    if i == j then 0 else AllowedIn(ds, i, j - 1) + if ds[j - 1] == Allow then 1 else 0
  }

  lemma AllowedInSplits(ds: seq<Decision>, i: nat, m: nat, j: nat)
    requires i <= m <= j <= |ds|
    ensures AllowedIn(ds, i, j) == AllowedIn(ds, i, m) + AllowedIn(ds, m, j)
    decreases j
  {
    if m < j {
      AllowedInSplits(ds, i, m, j - 1);
    }
  }

  lemma {:induction false} AfterKeepsValid(p: Policy, ts: seq<Instant>, n: nat)
    requires p.Valid() && n <= |ts|
    ensures After(p, ts, n).Valid()
    ensures After(p, ts, n).Reset() == p.Reset()
  {
    if n > 0 {
      AfterKeepsValid(p, ts, n - 1);
      RegisterKeepsValid(After(p, ts, n - 1), ts[n - 1]);
    }
  }

  /** Running from the state after the first event is running the whole trace and dropping one. */
  lemma {:induction false} AfterFirst(p: Policy, ts: seq<Instant>, n: nat)
    requires |ts| > 0 && n < |ts|
    ensures After(p, ts, n + 1) == After(Register(p, ts[0]).0, ts[1..], n)
  {
    if n > 0 {
      AfterFirst(p, ts, n - 1);
    } else {
      assert After(p, ts, 1) == Register(After(p, ts, 0), ts[0]).0;
    }
  }

  lemma DecisionsCons(p: Policy, ts: seq<Instant>)
    requires |ts| > 0
    ensures Decisions(p, ts) == [Register(p, ts[0]).1] + Decisions(Register(p, ts[0]).0, ts[1..])
  {
    var q := Register(p, ts[0]).0;
    var whole, rest := Decisions(p, ts), Decisions(q, ts[1..]);
    forall n | 0 <= n < |ts| ensures whole[n] == ([Register(p, ts[0]).1] + rest)[n] {
      if n > 0 {
        AfterFirst(p, ts, n - 1);
        assert ts[1..][n - 1] == ts[n];
        assert rest[n - 1] == DecisionAt(q, ts[1..], n - 1);
      }
    }
  }

  /** Earlier decisions do not depend on later events. */
  lemma {:induction false} AfterPrefix(p: Policy, ts: seq<Instant>, us: seq<Instant>, n: nat)
    requires n <= |ts| && n <= |us| && ts[..n] == us[..n]
    ensures After(p, ts, n) == After(p, us, n)
  {
    if n > 0 {
      assert ts[..n][n - 1] == us[..n][n - 1];
      assert ts[..n - 1] == ts[..n][..n - 1];
      assert us[..n - 1] == us[..n][..n - 1];
      AfterPrefix(p, ts, us, n - 1);
    }
  }

  lemma DecisionsSnoc(p: Policy, ts: seq<Instant>, now: Instant)
    ensures After(p, ts + [now], |ts|) == After(p, ts, |ts|)
    ensures Decisions(p, ts + [now]) == Decisions(p, ts) + [Register(After(p, ts, |ts|), now).1]
  {
    var us := ts + [now];
    forall n: nat | n <= |ts| ensures After(p, us, n) == After(p, ts, n) {
      assert us[..n] == ts[..n];
      AfterPrefix(p, us, ts, n);
    }
  }
}

/**
 The policy structs of src/domain/policy.rs as they are written: objects whose `RegisterEvent` and `Reset`
 update fields in place. Each is proved against the step function of module Policies, about which the theory
 modules speak.
*/
module PolicyObjects {
  import opened Wrappers
  import opened Machine
  import opened Policies

  class CountBasedPolicy {
    const maxCount: u64
    var currentCount: u64

    function Value(): Policy
      reads this
    {
      CountBased(maxCount, currentCount)
    }

    constructor (maxCount: u64)
      ensures Value() == CountBased(maxCount, 0)
    {
      this.maxCount := maxCount;
      currentCount := 0;
    }

    static method New(maxCount: u64) returns (r: Result<CountBasedPolicy, PolicyError>)
      ensures r.Success? <==> NewCountBased(maxCount).Success?
      ensures r.Success? ==> fresh(r.value) && Success(r.value.Value()) == NewCountBased(maxCount)
      ensures r.Failure? ==> r.error == ZeroMaxCount
    {
      if maxCount == 0 {
        return Failure(ZeroMaxCount);
      }
      var p := new CountBasedPolicy(maxCount);
      return Success(p);
    }

    method RegisterEvent(now: Instant) returns (d: Decision)
      modifies this
      ensures (Value(), d) == Register(old(Value()), now)
    {
      currentCount := WrappingInc(currentCount);
      if currentCount <= maxCount {
        d := Allow;
      } else {
        d := Suppress;
      }
    }

    method Reset()
      modifies this
      ensures Value() == old(Value()).Reset()
    {
      currentCount := 0;
    }
  }

  class TimeWindowPolicy {
    const maxEvents: nat
    const window: nat
    var stamps: seq<Instant>

    function Value(): Policy
      reads this
    {
      TimeWindow(maxEvents, window, stamps)
    }

    constructor (maxEvents: nat, window: nat)
      ensures Value() == TimeWindow(maxEvents, window, [])
    {
      this.maxEvents := maxEvents;
      this.window := window;
      stamps := [];
    }

    static method New(maxEvents: nat, window: nat) returns (r: Result<TimeWindowPolicy, PolicyError>)
      ensures r.Success? <==> NewTimeWindow(maxEvents, window).Success?
      ensures r.Success? ==> fresh(r.value) && Success(r.value.Value()) == NewTimeWindow(maxEvents, window)
      ensures r.Failure? ==> Failure(r.error) == NewTimeWindow(maxEvents, window)
    {
      if maxEvents == 0 {
        return Failure(ZeroMaxEvents);
      }
      if window == 0 {
        return Failure(ZeroWindowDuration);
      }
      var p := new TimeWindowPolicy(maxEvents, window);
      return Success(p);
    }

    /** Pops the front until it is no older than the window. */
    method ExpireOldEvents(now: Instant)
      modifies this
      ensures stamps == Expire(old(stamps), now, window)
    {
      while |stamps| > 0
        invariant Expire(stamps, now, window) == Expire(old(stamps), now, window)
        decreases |stamps|
      {
        if SaturatingSince(now, stamps[0]) > window {
          stamps := stamps[1..];
        } else {
          break;
        }
      }
    }

    method RegisterEvent(now: Instant) returns (d: Decision)
      modifies this
      ensures (Value(), d) == Register(old(Value()), now)
    {
      ExpireOldEvents(now);
      if |stamps| < maxEvents {
        stamps := stamps + [now];
        d := Allow;
      } else {
        d := Suppress;
      }
    }

    method Reset()
      modifies this
      ensures Value() == old(Value()).Reset()
    {
      stamps := [];
    }
  }

  class ExponentialBackoffPolicy {
    var eventCount: u64
    var nextAllowed: u64

    function Value(): Policy
      reads this
    {
      ExponentialBackoff(eventCount, nextAllowed)
    }

    constructor ()
      ensures Value() == NEW_BACKOFF
    {
      eventCount := 0;
      nextAllowed := 1;
    }

    method RegisterEvent(now: Instant) returns (d: Decision)
      modifies this
      ensures (Value(), d) == Register(old(Value()), now)
    {
      eventCount := WrappingInc(eventCount);
      if eventCount == nextAllowed {
        nextAllowed := SaturatingDouble(nextAllowed);
        d := Allow;
      } else {
        d := Suppress;
      }
    }

    method Reset()
      modifies this
      ensures Value() == old(Value()).Reset()
    {
      eventCount := 0;
      nextAllowed := 1;
    }
  }

  class TokenBucketPolicy {
    const capacity: real
    const refillRate: real
    var tokens: real
    var lastRefill: Option<Instant>

    function Value(): Policy
      reads this
    {
      TokenBucket(capacity, refillRate, tokens, lastRefill)
    }

    constructor (capacity: real, refillRate: real)
      ensures Value() == TokenBucket(capacity, refillRate, capacity, None)
    {
      this.capacity := capacity;
      this.refillRate := refillRate;
      tokens := capacity;
      lastRefill := None;
    }

    static method New(capacity: real, refillRate: real) returns (r: Result<TokenBucketPolicy, PolicyError>)
      ensures r.Success? <==> NewTokenBucket(capacity, refillRate).Success?
      ensures r.Success? ==> fresh(r.value) && Success(r.value.Value()) == NewTokenBucket(capacity, refillRate)
      ensures r.Failure? ==> Failure(r.error) == NewTokenBucket(capacity, refillRate)
    {
      if capacity <= 0.0 {
        return Failure(ZeroCapacity);
      }
      if refillRate <= 0.0 {
        return Failure(ZeroRefillRate);
      }
      var p := new TokenBucketPolicy(capacity, refillRate);
      return Success(p);
    }

    method RefillTokens(now: Instant)
      modifies this
      ensures Value() == Refill(old(Value()), now)
    {
      if lastRefill.Some? {
        var last := lastRefill.value;
        if now < last {
          lastRefill := Some(now);
          return;
        }
        var newTokens := Gain(refillRate, now - last);
        tokens := MinReal(tokens + newTokens, capacity);
      }
      lastRefill := Some(now);
    }

    method RegisterEvent(now: Instant) returns (d: Decision)
      modifies this
      ensures (Value(), d) == Register(old(Value()), now)
    {
      RefillTokens(now);
      if tokens >= 1.0 {
        tokens := tokens - 1.0;
        d := Allow;
      } else {
        d := Suppress;
      }
    }

    method Reset()
      modifies this
      ensures Value() == old(Value()).Reset()
    {
      tokens := capacity;
      lastRefill := None;
    }
  }
}

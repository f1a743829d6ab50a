/**
 The registry and the rate limiter as they are written: objects that drive the breaker, the store and the
 metrics in sequence. Each call is proved to be one `Check` of module Throttle, with the entry the store
 evicted as its victim.
*/
module Limiter {
  import opened Wrappers
  import opened Machine
  import opened Policies
  import opened Storage
  import opened CircuitBreakers
  import opened Throttle

  /** The values of a store's entries, without their access times. */
  function Values<K, V>(entries: map<K, Entry<V>>): map<K, V> {
    map k | k in entries :: entries[k].value
  }

  class SuppressionRegistry {
    const storage: ShardedStorage<EventSignature, EventState>
    const defaultPolicy: Policy

    constructor (storage: ShardedStorage<EventSignature, EventState>, defaultPolicy: Policy)
      ensures this.storage == storage && this.defaultPolicy == defaultPolicy
    {
      this.storage := storage;
      this.defaultPolicy := defaultPolicy;
    }

    /**
     `now` is the registry's clock, `storeNow` the time the store stamps the entry with; `order` is the store's
     iteration order.
    */
    method WithEventState<R>(order: seq<EventSignature>, signature: EventSignature, now: Instant, storeNow: Instant,
                             f: (EventState, Instant) -> (EventState, R)) returns (r: R)
      requires Listing(order, storage.entries.Keys)
      modifies storage
      ensures var before := old(storage.State());
              var found := if signature in before.entries then before.entries[signature].value
                           else NewEventState(defaultPolicy, now);
              && r == f(found, now).1
              && storage.State() == Access(storage.config, before, order, signature, storeNow, f(found, now).0)
    {
      var policy := defaultPolicy;
      r := storage.WithEntryMut(order, signature, NewEventState(policy, now), state => f(state, now), storeNow);
    }
  }

  /** Evictions and stamps apart, an access is an update of the remaining values. */
  lemma AccessOnValues<K, V>(config: Config<K, V>, st: Store<K, V>, order: seq<K>, key: K, now: Instant, value: V)
    requires Listing(order, st.entries.Keys)
    ensures var victim := Evicted(config, st, order, key);
            && (victim.Some? ==> key !in st.entries && victim.value in st.entries)
            && Values(Access(config, st, order, key, now, value).entries)
               == (if victim.Some? then Values(st.entries) - {victim.value} else Values(st.entries))[key := value]
  {
  }

  class RateLimiter {
    const registry: SuppressionRegistry
    const breaker: CircuitBreaker
    var eventsAllowed: nat
    var eventsSuppressed: nat

    /** A check does not depend on the emitter's minimum count. */
    ghost function Config(): LimiterConfig {
      LimiterConfig(registry.defaultPolicy, breaker.config, 0)
    }

    ghost function Value(): Core
      reads this, breaker, registry.storage
    {
      Core(Values(registry.storage.entries), breaker.Value(), eventsAllowed, eventsSuppressed)
    }

    constructor (registry: SuppressionRegistry, breaker: CircuitBreaker)
      ensures this.registry == registry && this.breaker == breaker
      ensures eventsAllowed == 0 && eventsSuppressed == 0
    {
      this.registry := registry;
      this.breaker := breaker;
      eventsAllowed, eventsSuppressed := 0, 0;
    }

    /** The operation under protection: ask the policy, record a suppression. */
    method Consult(ghost e: Event, signature: EventSignature, metadata: Option<Metadata>, now: Instant,
                   storeNow: Instant, order: seq<EventSignature>) returns (d: Decision)
      requires Listing(order, registry.storage.entries.Keys)
      requires e.signature == signature && e.metadata == metadata && e.now == now
      requires e.victim == Evicted(registry.storage.config, registry.storage.State(), order, e.signature)
      modifies registry.storage
      ensures e.victim.Some? ==> e.signature !in old(Value()).store && e.victim.value in old(Value()).store
      ensures var (state, decision) := OnEvent(StateFor(Config(), old(Value()), e), e.now, e.metadata);
              && d == decision
              && Values(registry.storage.entries) == Remaining(old(Value()), e)[e.signature := state]
    {
      ghost var before := registry.storage.State();
      ghost var found := StateFor(Config(), Value(), e);
      d := registry.WithEventState(order, signature, now, storeNow, (state, t) => OnEvent(state, t, metadata));
      AccessOnValues(registry.storage.config, before, order, signature, storeNow, OnEvent(found, now, metadata).0);
    }

    /**
     `check_event` without metadata, `check_event_with_metadata` with it. `panics` stands for a panic caught
     around the operation, raised before any entry is touched; `now` is the registry's clock, `storeNow` the
     store's, `at` and `failedAt` the breaker's; `order` is the store's iteration order.
    */
    method CheckEvent(signature: EventSignature, metadata: Option<Metadata>, now: Instant, storeNow: Instant,
                      at: Instant, failedAt: Instant, panics: bool, order: seq<EventSignature>)
      returns (d: Decision, ghost e: Event)
      requires Listing(order, registry.storage.entries.Keys)
      modifies this, breaker, registry.storage
      ensures e == Event(signature, metadata, now, at, failedAt, panics, e.victim)
      ensures e.victim == if Consulted(Config(), old(Value()), e)
                          then Evicted(registry.storage.config, old(registry.storage.State()), order, signature)
                          else None
      ensures CanCheck(Config(), old(Value()), e)
      ensures (Value(), d) == Check(Config(), old(Value()), e)
      ensures unchanged(registry.storage) || Consulted(Config(), old(Value()), e)
    {
      e := Event(signature, metadata, now, at, failedAt, panics, None);
      var proceed := breaker.Allow(at);
      if !proceed {
        eventsAllowed := eventsAllowed + 1;
        return Allow, e;
      }
      if panics {
        breaker.Failed(failedAt);
        d := Allow;
      } else {
        e := e.(victim := Evicted(registry.storage.config, registry.storage.State(), order, signature));
        d := Consult(e, signature, metadata, now, storeNow, order);
        breaker.Succeeded();
      }
      match d {
        case Allow => eventsAllowed := eventsAllowed + 1;
        case Suppress => eventsSuppressed := eventsSuppressed + 1;
      }
    }
  }
}

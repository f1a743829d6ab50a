/**
 The whole system as one step machine: checks against a store of per-signature states behind a circuit
 breaker, evictions, and one emitter that collects claims entry by entry, emits them, and rolls them back
 when the emission panics. A check is one step; the emitter's visits to single entries are separate steps, so
 checks and evictions land anywhere between a claim and its rollback.
*/
module Throttle {
  import opened Wrappers
  import opened Machine
  import opened Policies
  import opened SuppressionCounters
  import opened CircuitBreakers

  /** Signatures are opaque 64-bit keys. */
  type EventSignature = u64

  /** The human-readable details of an event; only their being kept matters here. */
  type Metadata = string

  datatype EventState = EventState(policy: Policy, counter: Ledger, metadata: Option<Metadata>)

  function NewEventState(policy: Policy, now: Instant): EventState {
    EventState(policy, NewLedger(now), None)
  }

  /** The first event's metadata stays. */
  function SetMetadata(s: EventState, metadata: Metadata): EventState {
    if s.metadata.None? then s.(metadata := Some(metadata)) else s
  }

  /**
   What `check_event` (no metadata) and `check_event_with_metadata` do with the state of the event's
   signature.
  */
  function OnEvent(s: EventState, now: Instant, metadata: Option<Metadata>): (EventState, Decision) {
    var tagged := if metadata.Some? then SetMetadata(s, metadata.value) else s;
    var (policy, decision) := Register(tagged.policy, now);
    match decision
    case Allow => (tagged.(policy := policy), Allow)
    case Suppress => (tagged.(policy := policy, counter := tagged.counter.Record(now)), Suppress)
  }

  // ---- The limiter ----

  datatype LimiterConfig = LimiterConfig(defaultPolicy: Policy, breaker: BreakerConfig, minCount: nat)

  datatype Core = Core(store: map<EventSignature, EventState>, breaker: Breaker, allowed: nat, suppressed: nat)

  /**
   One checked event. `now` is the registry's clock; `at` and `failedAt` are the breaker's. `panics` says that
   the rate limiting operation panics before touching an entry. `victim` is the entry evicted to make room.
  */
  datatype Event = Event(
    signature: EventSignature,
    metadata: Option<Metadata>,
    now: Instant,
    at: Instant,
    failedAt: Instant,
    panics: bool,
    victim: Option<EventSignature>
  )

  /** Does the event reach its policy, or fail open? */
  predicate Consulted(config: LimiterConfig, core: Core, e: Event) {
    AllowRequest(config.breaker, core.breaker, e.at).1 && !e.panics
  }

  /** Only the insertion of a new signature evicts, and only another, resident one. */
  predicate CanCheck(config: LimiterConfig, core: Core, e: Event) {
    e.victim.Some? ==> Consulted(config, core, e) && e.signature !in core.store && e.victim.value in core.store
  }

  function Remaining(core: Core, e: Event): map<EventSignature, EventState> {
    if e.victim.Some? then core.store - {e.victim.value} else core.store
  }

  function StateFor(config: LimiterConfig, core: Core, e: Event): EventState {
    if e.signature in core.store then core.store[e.signature] else NewEventState(config.defaultPolicy, e.now)
  }

  function Check(config: LimiterConfig, core: Core, e: Event): (Core, Decision) {
    var (breaker, proceed) := AllowRequest(config.breaker, core.breaker, e.at);
    if !proceed then (core.(breaker := breaker, allowed := core.allowed + 1), Allow)
    else if e.panics then
      (core.(breaker := RecordFailure(config.breaker, breaker, e.failedAt), allowed := core.allowed + 1), Allow)
    else
      var (state, decision) := OnEvent(StateFor(config, core, e), e.now, e.metadata);
      var store := Remaining(core, e)[e.signature := state];
      (Core(store, RecordSuccess(breaker),
            core.allowed + (if decision == Allow then 1 else 0),
            core.suppressed + (if decision == Suppress then 1 else 0)),
       decision)
  }

  // ---- With the emitter ----

  /** A claim taken for the current batch; an orphan's counter was evicted since. */
  datatype InFlight = InFlight(claim: Claim, orphan: bool)

  /** While collecting, `due` are the entries there from the start of the scan that it still has to visit. */
  datatype Phase =
    | Idle
    | Collecting(visited: set<EventSignature>, due: set<EventSignature>)
    | Emitting
    | RollingBack
  {
    function Without(victim: EventSignature): Phase {
      if Collecting? then Collecting(visited, due - {victim}) else this
    }
  }

  /**
   `slices` are the claims delivered so far for each resident counter; `delivered` and `lost` count
   suppressions: in emitted summaries, and gone with evicted counters before being delivered.
  */
  datatype World = World(
    core: Core,
    checked: nat,
    phase: Phase,
    inFlight: map<EventSignature, InFlight>,
    slices: map<EventSignature, seq<Claim>>,
    delivered: nat,
    lost: nat
  )

  const START_CORE := Core(map[], NEW_BREAKER, 0, 0)

  const START := World(START_CORE, 0, Idle, map[], map[], 0, 0)

  datatype Step =
    | CheckEvent(event: Event)
    | StartCollecting
    | Visit(signature: EventSignature)
    | FinishCollecting
    | EmitReturns
    | EmitPanics
    | UndoClaim(signature: EventSignature)
    | FinishRollback

  predicate Enabled(config: LimiterConfig, w: World, step: Step) {
    match step
    case CheckEvent(e) => CanCheck(config, w.core, e)
    case StartCollecting => w.phase == Idle
    // An entry is visited at most once by a scan: all incarnations of a key live in the same shard.
    case Visit(s) => w.phase.Collecting? && s !in w.phase.visited && s in w.core.store
    // The scan has visited every entry that was there throughout.
    case FinishCollecting => w.phase.Collecting? && w.phase.due == {}
    case EmitReturns => w.phase == Emitting
    case EmitPanics => w.phase == Emitting
    case UndoClaim(s) => w.phase == RollingBack && s in w.inFlight && s in w.core.store
    // So has this one.
    case FinishRollback => w.phase == RollingBack && forall s | s in w.inFlight :: w.inFlight[s].orphan
  }

  function SetCounter(w: World, s: EventSignature, counter: Ledger): World
    requires s in w.core.store
  {
    w.(core := w.core.(store := w.core.store[s := w.core.store[s].(counter := counter)]))
  }

  function Delivered(w: World, s: EventSignature): seq<Claim> {
    if s in w.slices then w.slices[s] else []
  }

  /** What an eviction does to the emitter's accounts. */
  function Orphan(w: World, victim: EventSignature): World
    requires victim in w.core.store && w.core.store[victim].counter.cursor <= |w.core.store[victim].counter.log|
  {
    w.(phase := w.phase.Without(victim),
       lost := w.lost + w.core.store[victim].counter.Pending(),
       slices := w.slices - {victim},
       inFlight := if victim in w.inFlight then w.inFlight[victim := w.inFlight[victim].(orphan := true)]
                   else w.inFlight)
  }

  ghost function InFlightCounts(inFlight: map<EventSignature, InFlight>): map<EventSignature, nat> {
    map s | s in inFlight :: inFlight[s].claim.count
  }

  ghost function Total(m: map<EventSignature, nat>): nat {
    if m == map[] then 0
    else
      var s :| s in m;
      m[s] + Total(m - {s})
  }

  ghost predicate LedgersValid(w: World) {
    forall s | s in w.core.store :: w.core.store[s].counter.Valid()
  }

  ghost function Do(config: LimiterConfig, w: World, step: Step): World
    requires LedgersValid(w) && Enabled(config, w, step)
  {
    match step
    case CheckEvent(e) =>
      var orphaned := if e.victim.Some? then Orphan(w, e.victim.value) else w;
      orphaned.(core := Check(config, w.core, e).0, checked := w.checked + 1)
    case StartCollecting => w.(phase := Collecting({}, w.core.store.Keys))
    case Visit(s) =>
      var (counter, claim) := w.core.store[s].counter.ClaimUnreported(config.minCount);
      SetCounter(w, s, counter).(
        phase := Collecting(w.phase.visited + {s}, w.phase.due - {s}),
        inFlight := if claim.Some? then w.inFlight[s := InFlight(claim.value, false)] else w.inFlight)
    case FinishCollecting => w.(phase := if w.inFlight == map[] then Idle else Emitting)
    case EmitReturns =>
      w.(phase := Idle,
         delivered := w.delivered + Total(InFlightCounts(w.inFlight)),
         slices := map s | s in w.core.store ::
                     Delivered(w, s) + (if s in w.inFlight && !w.inFlight[s].orphan then [w.inFlight[s].claim] else []),
         inFlight := map[])
    case EmitPanics => w.(phase := RollingBack)
    case UndoClaim(s) =>
      var flying := w.inFlight[s];
      SetCounter(w, s, w.core.store[s].counter.RollBack(flying.claim).0).(
        inFlight := w.inFlight - {s},
        lost := w.lost + if flying.orphan then flying.claim.count else 0)
    case FinishRollback =>
      w.(phase := Idle, inFlight := map[], lost := w.lost + Total(InFlightCounts(w.inFlight)))
  }
}

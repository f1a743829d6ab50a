/**
 Per-signature isolation: what the limiter decides for a signature is what a private copy of the default
 policy decides on that signature's own events and evictions, whatever happens to every other signature and
 whatever the emitter does in between.
*/
module Isolation {
  import opened Wrappers
  import opened Machine
  import opened Arithmetic
  import opened Policies
  import opened CircuitBreakers
  import opened Throttle
  import opened ThrottleTheory

  /** What one signature sees of a run. */
  datatype Local = Arrive(now: Instant) | Evict

  /** The projection of the first `n` steps of a run onto a signature: its consulted events, its evictions. */
  ghost function Project(config: LimiterConfig, ws: seq<World>, steps: seq<Step>, s: EventSignature, n: nat)
    : seq<Local>
    requires IsRun(config, ws, steps) && n <= |steps|
  {
    if n == 0 then []
    else
      Project(config, ws, steps, s, n - 1)
      + LocalPart(steps[n - 1], s, steps[n - 1].CheckEvent? && Consulted(config, ws[n - 1].core, steps[n - 1].event))
  }

  ghost function LocalPart(step: Step, s: EventSignature, consulted: bool): seq<Local> {
    if !step.CheckEvent? then []
    else if consulted && step.event.signature == s then [Arrive(step.event.now)]
    else if step.event.victim == Some(s) then [Evict]
    else []
  }

  /** The decisions of the limiter on the signature's consulted events. */
  ghost function DecisionsFor(config: LimiterConfig, ws: seq<World>, steps: seq<Step>, s: EventSignature, n: nat)
    : seq<Decision>
    requires IsRun(config, ws, steps) && n <= |steps|
  {
    if n == 0 then []
    else
      var step := steps[n - 1];
      DecisionsFor(config, ws, steps, s, n - 1)
      + if step.CheckEvent? && step.event.signature == s && Consulted(config, ws[n - 1].core, step.event)
        then [Check(config, ws[n - 1].core, step.event).1] else []
  }

  // ---- The private copy ----

  /** The private copy's state: a fresh default policy after every eviction. */
  ghost function Replay(initial: Policy, locals: seq<Local>): Policy {
    if locals == [] then initial
    else
      var before := Replay(initial, locals[..|locals| - 1]);
      match locals[|locals| - 1]
      case Arrive(now) => Register(before, now).0
      case Evict => initial
  }

  ghost function ReplayDecisions(initial: Policy, locals: seq<Local>): seq<Decision> {
    if locals == [] then []
    else
      var init := locals[..|locals| - 1];
      ReplayDecisions(initial, init)
      + match locals[|locals| - 1]
        case Arrive(now) => [Register(Replay(initial, init), now).1]
        case Evict => []
  }

  lemma ReplaySnoc(p: Policy, locals: seq<Local>, l: Local)
    ensures Replay(p, locals + [l]) == if l.Arrive? then Register(Replay(p, locals), l.now).0 else p
    ensures ReplayDecisions(p, locals + [l])
         == ReplayDecisions(p, locals) + if l.Arrive? then [Register(Replay(p, locals), l.now).1] else []
  {
    assert (locals + [l])[..|locals|] == locals;
  }

  ghost function Arrivals(ts: seq<Instant>): (ls: seq<Local>)
    ensures |ls| == |ts| && forall i | 0 <= i < |ts| :: ls[i] == Arrive(ts[i])
  {
    seq(|ts|, i requires 0 <= i < |ts| => Arrive(ts[i]))
  }

  /** Between evictions the private copy is simply the policy run on the signature's events. */
  lemma {:induction false} ReplayOfArrivals(p: Policy, ts: seq<Instant>)
    ensures Replay(p, Arrivals(ts)) == After(p, ts, |ts|)
    ensures ReplayDecisions(p, Arrivals(ts)) == Decisions(p, ts)
  {
    if ts != [] {
      var init, last := ts[..|ts| - 1], ts[|ts| - 1];
      ReplayOfArrivals(p, init);
      ReplaySnoc(p, Arrivals(init), Arrive(last));
      assert Arrivals(ts) == Arrivals(init) + [Arrive(last)];
      DecisionsSnoc(p, init, last);
      assert ts == init + [last];
    }
  }

  /** An eviction starts over. */
  lemma {:induction false} ReplayAfterEviction(p: Policy, before: seq<Local>, after: seq<Local>)
    ensures Replay(p, before + [Evict] + after) == Replay(p, after)
    ensures ReplayDecisions(p, before + [Evict] + after) == ReplayDecisions(p, before) + ReplayDecisions(p, after)
  {
    if after == [] {
      ReplaySnoc(p, before, Evict);
      assert before + [Evict] + after == before + [Evict];
    } else {
      var init, last := after[..|after| - 1], after[|after| - 1];
      ReplayAfterEviction(p, before, init);
      ReplaySnoc(p, before + [Evict] + init, last);
      ReplaySnoc(p, init, last);
      assert before + [Evict] + after == before + [Evict] + init + [last];
      assert after == init + [last];
    }
  }

  // ---- Isolation ----

  /** What a check does to the policy of one signature. */
  lemma CheckOnPolicy(config: LimiterConfig, core: Core, e: Event, s: EventSignature)
    requires CanCheck(config, core, e)
    ensures var core' := Check(config, core, e).0;
            if Consulted(config, core, e) && e.signature == s then
              && s in core'.store
              && (core'.store[s].policy, Check(config, core, e).1)
                 == Register(if s in core.store then core.store[s].policy else config.defaultPolicy, e.now)
            else if e.victim == Some(s) then s !in core'.store
            else (s in core'.store <==> s in core.store)
                 && (s in core.store ==> core'.store[s].policy == core.store[s].policy)
  {
  }

  lemma EmitterLeavesPolicies(config: LimiterConfig, w: World, step: Step, s: EventSignature)
    requires LedgersValid(w) && Enabled(config, w, step) && !step.CheckEvent?
    ensures var w' := Do(config, w, step);
            && (s in w'.core.store <==> s in w.core.store)
            && (s in w.core.store ==> w'.core.store[s].policy == w.core.store[s].policy)
  {
  }

  /** The policy a signature would meet now. */
  ghost function PolicyOf(config: LimiterConfig, core: Core, s: EventSignature): Policy {
    if s in core.store then core.store[s].policy else config.defaultPolicy
  }

  /**
   In every run, for every signature, the stored policy is the private copy's state and every consulted
   decision is the private copy's. With `ReplayOfArrivals` and `ReplayAfterEviction`: the decisions since the
   state was last created are those of a fresh copy of the default policy on the events since then.
  */
  lemma {:induction false} DecisionsAreLocal(config: LimiterConfig, ws: seq<World>, steps: seq<Step>,
                                             s: EventSignature, n: nat)
    requires IsRun(config, ws, steps) && n <= |steps|
    ensures PolicyOf(config, ws[n].core, s) == Replay(config.defaultPolicy, Project(config, ws, steps, s, n))
    ensures DecisionsFor(config, ws, steps, s, n)
         == ReplayDecisions(config.defaultPolicy, Project(config, ws, steps, s, n))
  {
    if n > 0 {
      DecisionsAreLocal(config, ws, steps, s, n - 1);
      var w, step := ws[n - 1], steps[n - 1];
      var before := Project(config, ws, steps, s, n - 1);
      if step.CheckEvent? {
        CheckOnPolicy(config, w.core, step.event, s);
        assert ws[n].core == Check(config, w.core, step.event).0;
        ReplaySnoc(config.defaultPolicy, before, Arrive(step.event.now));
        ReplaySnoc(config.defaultPolicy, before, Evict);
      } else {
        EmitterLeavesPolicies(config, w, step, s);
      }
      assert before + [] == before;
    }
  }

  // ---- What the counter and the metadata hold ----

  /** Timestamps of the events the private copy suppressed since its last eviction. */
  ghost function ReplayLog(initial: Policy, locals: seq<Local>): seq<u64> {
    if locals == [] then []
    else
      var init := locals[..|locals| - 1];
      match locals[|locals| - 1]
      case Arrive(now) =>
        ReplayLog(initial, init) + if Register(Replay(initial, init), now).1 == Suppress then [ToNanos(now)] else []
      case Evict => []
  }

  ghost function LogOf(core: Core, s: EventSignature): seq<u64> {
    if s in core.store then core.store[s].counter.log else []
  }

  lemma CheckOnLog(config: LimiterConfig, core: Core, e: Event, s: EventSignature)
    requires CanCheck(config, core, e)
    ensures LogOf(Check(config, core, e).0, s)
         == if Consulted(config, core, e) && e.signature == s then
              LogOf(core, s) + if Register(PolicyOf(config, core, s), e.now).1 == Suppress then [ToNanos(e.now)] else []
            else if e.victim == Some(s) then []
            else LogOf(core, s)
  {
  }

  lemma EmitterLeavesLogs(config: LimiterConfig, w: World, step: Step, s: EventSignature)
    requires LedgersValid(w) && Enabled(config, w, step) && !step.CheckEvent?
    ensures LogOf(Do(config, w, step).core, s) == LogOf(w.core, s)
  {
  }

  lemma ReplayLogSnoc(p: Policy, locals: seq<Local>, l: Local)
    ensures ReplayLog(p, locals + [l])
         == if l.Evict? then []
            else ReplayLog(p, locals) + if Register(Replay(p, locals), l.now).1 == Suppress then [ToNanos(l.now)] else []
  {
    assert (locals + [l])[..|locals|] == locals;
  }

  lemma StepOnLog(config: LimiterConfig, w: World, step: Step, s: EventSignature, before: seq<Local>)
    requires LedgersValid(w) && Enabled(config, w, step)
    requires PolicyOf(config, w.core, s) == Replay(config.defaultPolicy, before)
    requires LogOf(w.core, s) == ReplayLog(config.defaultPolicy, before)
    ensures LogOf(Do(config, w, step).core, s)
         == ReplayLog(config.defaultPolicy,
                      before + LocalPart(step, s, step.CheckEvent? && Consulted(config, w.core, step.event)))
  {
    assert before + [] == before;
    if step.CheckEvent? {
      CheckOnLog(config, w.core, step.event, s);
      ReplayLogSnoc(config.defaultPolicy, before, Arrive(step.event.now));
      ReplayLogSnoc(config.defaultPolicy, before, Evict);
    } else {
      EmitterLeavesLogs(config, w, step, s);
    }
  }

  /** A resident counter's log is exactly the signature's own suppressed events since its state was created. */
  lemma {:induction false} LogIsOwnSuppressions(config: LimiterConfig, ws: seq<World>, steps: seq<Step>,
                                                s: EventSignature, n: nat)
    requires IsRun(config, ws, steps) && n <= |steps|
    ensures LogOf(ws[n].core, s) == ReplayLog(config.defaultPolicy, Project(config, ws, steps, s, n))
  {
    if n > 0 {
      LogIsOwnSuppressions(config, ws, steps, s, n - 1);
      var before := Project(config, ws, steps, s, n - 1);
      assert PolicyOf(config, ws[n - 1].core, s) == Replay(config.defaultPolicy, before) by {
        DecisionsAreLocal(config, ws, steps, s, n - 1);
      }
      StepOnLog(config, ws[n - 1], steps[n - 1], s, before);
    }
  }

  /** The first metadata among the consulted events since the state was created. */
  ghost function FirstMetadata(config: LimiterConfig, ws: seq<World>, steps: seq<Step>, s: EventSignature, n: nat)
    : Option<Metadata>
    requires IsRun(config, ws, steps) && n <= |steps|
  {
    if n == 0 then None
    else
      var before, step := FirstMetadata(config, ws, steps, s, n - 1), steps[n - 1];
      if !step.CheckEvent? then before
      else if step.event.signature == s && Consulted(config, ws[n - 1].core, step.event) then
        if before.Some? then before else step.event.metadata
      else if step.event.victim == Some(s) then None
      else before
  }

  ghost function MetadataOf(core: Core, s: EventSignature): Option<Metadata> {
    if s in core.store then core.store[s].metadata else None
  }

  lemma CheckOnMetadata(config: LimiterConfig, core: Core, e: Event, s: EventSignature)
    requires CanCheck(config, core, e)
    ensures MetadataOf(Check(config, core, e).0, s)
         == if Consulted(config, core, e) && e.signature == s then
              if MetadataOf(core, s).Some? then MetadataOf(core, s) else e.metadata
            else if e.victim == Some(s) then None
            else MetadataOf(core, s)
  {
  }

  lemma EmitterLeavesMetadata(config: LimiterConfig, w: World, step: Step, s: EventSignature)
    requires LedgersValid(w) && Enabled(config, w, step) && !step.CheckEvent?
    ensures MetadataOf(Do(config, w, step).core, s) == MetadataOf(w.core, s)
  {
  }

  lemma {:induction false} MetadataIsFirst(config: LimiterConfig, ws: seq<World>, steps: seq<Step>,
                                           s: EventSignature, n: nat)
    requires IsRun(config, ws, steps) && n <= |steps|
    ensures MetadataOf(ws[n].core, s) == FirstMetadata(config, ws, steps, s, n)
  {
    if n > 0 {
      MetadataIsFirst(config, ws, steps, s, n - 1);
      if steps[n - 1].CheckEvent? {
        CheckOnMetadata(config, ws[n - 1].core, steps[n - 1].event, s);
      } else {
        EmitterLeavesMetadata(config, ws[n - 1], steps[n - 1], s);
      }
    }
  }

  /** When the state now resident was created: the time of the consulted event that found none. */
  ghost function CreatedAt(config: LimiterConfig, ws: seq<World>, steps: seq<Step>, s: EventSignature, n: nat)
    : Option<Instant>
    requires IsRun(config, ws, steps) && n <= |steps|
  {
    if n == 0 then None
    else
      var before, step := CreatedAt(config, ws, steps, s, n - 1), steps[n - 1];
      if !step.CheckEvent? then before
      else if step.event.signature == s && Consulted(config, ws[n - 1].core, step.event) then
        if before.Some? then before else Some(step.event.now)
      else if step.event.victim == Some(s) then None
      else before
  }

  /** The creation time a counter carries, clamped as stored. */
  ghost function InitialOf(core: Core, s: EventSignature): Option<int> {
    if s in core.store then Some(core.store[s].counter.initial) else None
  }

  ghost function Stored(created: Option<Instant>): Option<int> {
    if created.Some? then Some(ToNanos(created.value)) else None
  }

  lemma StepOnCreation(config: LimiterConfig, w: World, step: Step, s: EventSignature)
    requires LedgersValid(w) && Enabled(config, w, step)
    ensures InitialOf(Do(config, w, step).core, s)
         == if step.CheckEvent? && step.event.signature == s && Consulted(config, w.core, step.event) then
              if s in w.core.store then InitialOf(w.core, s) else Some(ToNanos(step.event.now))
            else if step.CheckEvent? && step.event.victim == Some(s) then None
            else InitialOf(w.core, s)
  {
  }

  /** A signature is resident exactly since the event that created its state, and its counter carries that time. */
  lemma {:induction false} CreationIsFirstArrival(config: LimiterConfig, ws: seq<World>, steps: seq<Step>,
                                                  s: EventSignature, n: nat)
    requires IsRun(config, ws, steps) && n <= |steps|
    ensures InitialOf(ws[n].core, s) == Stored(CreatedAt(config, ws, steps, s, n))
  {
    if n > 0 {
      CreationIsFirstArrival(config, ws, steps, s, n - 1);
      StepOnCreation(config, ws[n - 1], steps[n - 1], s);
    }
  }

  // ---- Noninterference, for runs without panics ----

  ghost predicate NoPanics(steps: seq<Step>) {
    forall i | 0 <= i < |steps| && steps[i].CheckEvent? :: !steps[i].event.panics
  }

  /** The projection read off the steps alone. */
  ghost function Mentions(steps: seq<Step>, s: EventSignature): seq<Local> {
    if steps == [] then []
    else Mentions(steps[..|steps| - 1], s) + LocalPart(steps[|steps| - 1], s, true)
  }

  /** Without panics the breaker stays closed and every event reaches its policy. */
  lemma {:induction false} AllConsulted(config: LimiterConfig, ws: seq<World>, steps: seq<Step>, n: nat)
    requires IsRun(config, ws, steps) && NoPanics(steps) && n <= |steps|
    ensures ws[n].core.breaker.state == Closed
    ensures n < |steps| && steps[n].CheckEvent? ==> Consulted(config, ws[n].core, steps[n].event)
  {
    if n > 0 {
      AllConsulted(config, ws, steps, n - 1);
      BreakerStaysClosed(config, ws[n - 1], steps[n - 1]);
    }
  }

  lemma BreakerStaysClosed(config: LimiterConfig, w: World, step: Step)
    requires LedgersValid(w) && Enabled(config, w, step) && w.core.breaker.state == Closed
    requires step.CheckEvent? ==> !step.event.panics
    ensures Do(config, w, step).core.breaker.state == Closed
  {
  }

  lemma {:induction false} ProjectionIsMentions(config: LimiterConfig, ws: seq<World>, steps: seq<Step>,
                                                s: EventSignature, n: nat)
    requires IsRun(config, ws, steps) && NoPanics(steps) && n <= |steps|
    ensures Project(config, ws, steps, s, n) == Mentions(steps[..n], s)
  {
    if n > 0 {
      ProjectionIsMentions(config, ws, steps, s, n - 1);
      AllConsulted(config, ws, steps, n - 1);
      assert steps[..n][..n - 1] == steps[..n - 1];
    }
  }

  /**
   Noninterference: two runs without panics that mention a signature in the same way, however they differ on
   all others, decide it the same way.
  */
  lemma OthersDoNotMatter(config: LimiterConfig, ws: seq<World>, steps: seq<Step>,
                          ws': seq<World>, steps': seq<Step>, s: EventSignature)
    requires IsRun(config, ws, steps) && IsRun(config, ws', steps') && NoPanics(steps) && NoPanics(steps')
    requires Mentions(steps, s) == Mentions(steps', s)
    ensures DecisionsFor(config, ws, steps, s, |steps|) == DecisionsFor(config, ws', steps', s, |steps'|)
  {
    assert steps[..|steps|] == steps && steps'[..|steps'|] == steps';
    ProjectionIsMentions(config, ws, steps, s, |steps|);
    ProjectionIsMentions(config, ws', steps', s, |steps'|);
    DecisionsAreLocal(config, ws, steps, s, |steps|);
    DecisionsAreLocal(config, ws', steps', s, |steps'|);
  }

  // ---- The count limit end to end ----

  ghost function AllowedOf(ds: seq<Decision>): nat {
    AllowedIn(ds, 0, |ds|)
  }

  ghost function Evictions(locals: seq<Local>): nat {
    if locals == [] then 0
    else Evictions(locals[..|locals| - 1]) + if locals[|locals| - 1] == Evict then 1 else 0
  }

  lemma {:induction false} AllowedInPrefix(ds: seq<Decision>, d: Decision, n: nat)
    requires n <= |ds|
    ensures AllowedIn(ds + [d], 0, n) == AllowedIn(ds, 0, n)
  {
    if n > 0 {
      AllowedInPrefix(ds, d, n - 1);
    }
  }

  lemma CountStep(q: Policy, now: Instant)
    requires q.CountBased? && q.currentCount < U64_MAX
    ensures var (q', d) := Register(q, now);
            && q' == CountBased(q.maxCount, q.currentCount + 1)
            && Min(q'.currentCount, q.maxCount) == Min(q.currentCount, q.maxCount) + if d == Allow then 1 else 0
  {
  }

  lemma AllowedOfSnoc(ds: seq<Decision>, d: Decision)
    ensures AllowedOf(ds + [d]) == AllowedOf(ds) + if d == Allow then 1 else 0
  {
    AllowedInPrefix(ds, d, |ds|);
  }

  lemma {:induction false} CountReplayBound(p: Policy, locals: seq<Local>)
    requires p.CountBased? && p.Fresh() && |locals| < MODULUS
    ensures var q := Replay(p, locals);
            && q.CountBased? && q.maxCount == p.maxCount && q.currentCount <= |locals|
            && AllowedOf(ReplayDecisions(p, locals))
               <= Evictions(locals) * p.maxCount + Min(q.currentCount, p.maxCount)
  {
    if locals != [] {
      var init, last := locals[..|locals| - 1], locals[|locals| - 1];
      CountReplayBound(p, init);
      ReplaySnoc(p, init, last);
      assert init + [last] == locals;
      var before := ReplayDecisions(p, init);
      match last {
        case Arrive(now) =>
          CountStep(Replay(p, init), now);
          AllowedOfSnoc(before, Register(Replay(p, init), now).1);
        case Evict =>
          TimesSuccessor(Evictions(init), p.maxCount);
          assert before + [] == before;
      }
    }
  }

  /** Events of the signature that were let through, by its policy or because the limiter failed open. */
  ghost function LetThrough(config: LimiterConfig, ws: seq<World>, steps: seq<Step>, s: EventSignature, n: nat): nat
    requires IsRun(config, ws, steps) && n <= |steps|
  {
    if n == 0 then 0
    else
      var step := steps[n - 1];
      LetThrough(config, ws, steps, s, n - 1)
      + if step.CheckEvent? && step.event.signature == s && Check(config, ws[n - 1].core, step.event).1 == Allow
        then 1 else 0
  }

  ghost function FailedOpen(config: LimiterConfig, ws: seq<World>, steps: seq<Step>, s: EventSignature, n: nat): nat
    requires IsRun(config, ws, steps) && n <= |steps|
  {
    if n == 0 then 0
    else
      var step := steps[n - 1];
      FailedOpen(config, ws, steps, s, n - 1)
      + if step.CheckEvent? && step.event.signature == s && !Consulted(config, ws[n - 1].core, step.event)
        then 1 else 0
  }

  lemma FailsOpen(config: LimiterConfig, core: Core, e: Event)
    requires !Consulted(config, core, e)
    ensures Check(config, core, e).1 == Allow
  {
  }

  lemma {:induction false} LetThroughSplits(config: LimiterConfig, ws: seq<World>, steps: seq<Step>,
                                            s: EventSignature, n: nat)
    requires IsRun(config, ws, steps) && n <= |steps|
    ensures LetThrough(config, ws, steps, s, n)
         == AllowedOf(DecisionsFor(config, ws, steps, s, n)) + FailedOpen(config, ws, steps, s, n)
    ensures |Project(config, ws, steps, s, n)| <= n
  {
    if n > 0 {
      LetThroughSplits(config, ws, steps, s, n - 1);
      var core, step := ws[n - 1].core, steps[n - 1];
      var before := DecisionsFor(config, ws, steps, s, n - 1);
      if step.CheckEvent? && step.event.signature == s {
        if Consulted(config, core, step.event) {
          AllowedOfSnoc(before, Check(config, core, step.event).1);
        } else {
          FailsOpen(config, core, step.event);
          assert before + [] == before;
        }
      } else {
        assert before + [] == before;
      }
    }
  }

  /**
   Under the count policy a signature gets at most maxCount events through per time its state is created, and
   whatever failed open.
  */
  lemma CountLimitEndToEnd(config: LimiterConfig, ws: seq<World>, steps: seq<Step>, s: EventSignature, n: nat)
    requires IsRun(config, ws, steps) && n <= |steps| < MODULUS
    requires config.defaultPolicy.CountBased? && config.defaultPolicy.Fresh()
    ensures LetThrough(config, ws, steps, s, n)
         <= (Evictions(Project(config, ws, steps, s, n)) + 1) * config.defaultPolicy.maxCount
            + FailedOpen(config, ws, steps, s, n)
  {
    var locals := Project(config, ws, steps, s, n);
    LetThroughSplits(config, ws, steps, s, n);
    DecisionsAreLocal(config, ws, steps, s, n);
    CountReplayBound(config.defaultPolicy, locals);
    TimesSuccessor(Evictions(locals), config.defaultPolicy.maxCount);
  }
}

/**
 A signature's run cut into the lives of its state: every limit a policy keeps on one trace, carried through
 the limiter and its evictions.
*/
module Lifetimes {
  import opened Machine
  import opened Arithmetic
  import opened Policies
  import opened TokenBucketTheory
  import opened TimeWindowTheory
  import opened Throttle
  import opened ThrottleTheory
  import opened Isolation

  /** The arrival times of each life: one more life than evictions, the last one still going on. */
  ghost function Lives(locals: seq<Local>): (lives: seq<seq<Instant>>)
    ensures |lives| == Evictions(locals) + 1
  {
    if locals == [] then [[]]
    else
      var before := Lives(locals[..|locals| - 1]);
      match locals[|locals| - 1]
      case Arrive(now) => before[|before| - 1 := before[|before| - 1] + [now]]
      case Evict => before + [[]]
  }

  /** A fresh policy for each life. */
  ghost function DecideEach(p: Policy, lives: seq<seq<Instant>>): seq<Decision> {
    if lives == [] then []
    else DecideEach(p, lives[..|lives| - 1]) + Decisions(p, lives[|lives| - 1])
  }

  lemma ExtendLast(p: Policy, lives: seq<seq<Instant>>, now: Instant)
    requires lives != []
    ensures var (front, last) := (lives[..|lives| - 1], lives[|lives| - 1]);
            DecideEach(p, lives[|lives| - 1 := last + [now]])
            == DecideEach(p, lives) + [Register(After(p, last, |last|), now).1]
  {
    var (front, last) := (lives[..|lives| - 1], lives[|lives| - 1]);
    var longer := lives[|lives| - 1 := last + [now]];
    assert longer[..|longer| - 1] == front;
    DecisionsSnoc(p, last, now);
    var d := Register(After(p, last, |last|), now).1;
    assert DecideEach(p, front) + (Decisions(p, last) + [d]) == DecideEach(p, front) + Decisions(p, last) + [d];
  }

  lemma StartLife(p: Policy, lives: seq<seq<Instant>>)
    ensures DecideEach(p, lives + [[]]) == DecideEach(p, lives)
  {
    assert (lives + [[]])[..|lives|] == lives;
    assert Decisions(p, []) == [];
    assert DecideEach(p, lives) + [] == DecideEach(p, lives);
  }

  ghost function LastLife(locals: seq<Local>): seq<Instant> {
    var lives := Lives(locals); lives[|lives| - 1]
  }

  lemma AfterOneMore(p: Policy, life: seq<Instant>, now: Instant)
    ensures After(p, life + [now], |life| + 1) == Register(After(p, life, |life|), now).0
  {
    DecisionsSnoc(p, life, now);
    assert (life + [now])[|life|] == now;
  }

  /** The private copy's state is that of a fresh policy run on the last life. */
  lemma {:induction false} ReplayIsLastLife(p: Policy, locals: seq<Local>)
    ensures Replay(p, locals) == After(p, LastLife(locals), |LastLife(locals)|)
  {
    if locals != [] {
      var (init, l) := (locals[..|locals| - 1], locals[|locals| - 1]);
      ReplayIsLastLife(p, init);
      if l.Arrive? {
        AfterOneMore(p, LastLife(init), l.now);
      }
    }
  }

  /** Its decisions are those of a fresh policy for each life. */
  lemma {:induction false} ReplayIsEach(p: Policy, locals: seq<Local>)
    ensures ReplayDecisions(p, locals) == DecideEach(p, Lives(locals))
  {
    if locals == [] {
      StartLife(p, []);
      assert [] + [[]] == Lives(locals);
    } else {
      var (init, l) := (locals[..|locals| - 1], locals[|locals| - 1]);
      ReplayIsEach(p, init);
      ReplayIsLastLife(p, init);
      if l.Arrive? {
        ExtendLast(p, Lives(init), l.now);
      } else {
        StartLife(p, Lives(init));
        assert ReplayDecisions(p, init) + [] == ReplayDecisions(p, init);
      }
    }
  }

  /**
   Isolation, in one statement: the limiter's decisions on a signature are those of a fresh copy of the
   default policy for each life of its state, run on that life's events alone; the policy it would meet now is
   the last copy's.
  */
  lemma EachLifeIsFresh(config: LimiterConfig, ws: seq<World>, steps: seq<Step>, s: EventSignature, n: nat)
    requires IsRun(config, ws, steps) && n <= |steps|
    ensures var (p, locals) := (config.defaultPolicy, Project(config, ws, steps, s, n));
            && DecisionsFor(config, ws, steps, s, n) == DecideEach(p, Lives(locals))
            && PolicyOf(config, ws[n].core, s) == After(p, LastLife(locals), |LastLife(locals)|)
  {
    DecisionsAreLocal(config, ws, steps, s, n);
    ReplayIsEach(config.defaultPolicy, Project(config, ws, steps, s, n));
    ReplayIsLastLife(config.defaultPolicy, Project(config, ws, steps, s, n));
  }

  // ---- The token bucket end to end ----

  lemma {:induction false} AllowedInConcat(ds: seq<Decision>, es: seq<Decision>, n: nat)
    requires n <= |es|
    ensures AllowedIn(ds + es, 0, |ds| + n) == AllowedOf(ds) + AllowedIn(es, 0, n)
  {
    if n == 0 {
      AllowedInOfPrefix(ds, es, |ds|);
    } else {
      AllowedInConcat(ds, es, n - 1);
      assert (ds + es)[|ds| + n - 1] == es[n - 1];
    }
  }

  lemma {:induction false} AllowedInOfPrefix(ds: seq<Decision>, es: seq<Decision>, n: nat)
    requires n <= |ds|
    ensures AllowedIn(ds + es, 0, n) == AllowedIn(ds, 0, n)
  {
    if n > 0 {
      AllowedInOfPrefix(ds, es, n - 1);
    }
  }

  /** Nanoseconds the clock moved forward between the events of one life. */
  ghost function Span(life: seq<Instant>): nat {
    if life == [] then 0 else Forward(life, 0, |life| - 1)
  }

  ghost function Spans(lives: seq<seq<Instant>>): nat {
    if lives == [] then 0 else Spans(lives[..|lives| - 1]) + Span(lives[|lives| - 1])
  }

  /** One capacity per life, and the rate over the time that passed forward in it. */
  ghost function Ceilings(p: Policy, lives: seq<seq<Instant>>): real
    requires p.TokenBucket?
  {
    if lives == [] then 0.0
    else Ceilings(p, lives[..|lives| - 1]) + (p.capacity + Gain(p.refillRate, Span(lives[|lives| - 1])))
  }

  lemma RealSuccessor(n: nat, c: real)
    ensures (n + 1) as real * c == n as real * c + c
  {
  }

  lemma {:induction false} CeilingsInTime(p: Policy, lives: seq<seq<Instant>>)
    requires p.TokenBucket?
    ensures Ceilings(p, lives) == |lives| as real * p.capacity + Gain(p.refillRate, Spans(lives))
  {
    if lives == [] {
      assert Gain(p.refillRate, 0) == 0.0;
    } else {
      var front := lives[..|lives| - 1];
      CeilingsInTime(p, front);
      GainIsAdditive(p.refillRate, Spans(front), Span(lives[|lives| - 1]));
      RealSuccessor(|front|, p.capacity);
    }
  }

  /** In nanoseconds: beyond one capacity per life, every token takes 1 / rate seconds of forward time. */
  lemma CeilingsInNanos(p: Policy, lives: seq<seq<Instant>>)
    requires p.TokenBucket?
    ensures (Ceilings(p, lives) - |lives| as real * p.capacity) * 1000000000.0 == p.refillRate * Spans(lives) as real
  {
    CeilingsInTime(p, lives);
    GainPerSecond(p.refillRate, Spans(lives));
    assert Ceilings(p, lives) - |lives| as real * p.capacity == Gain(p.refillRate, Spans(lives));
  }

  lemma OneLifeWithinCeiling(p: Policy, life: seq<Instant>)
    requires p.Fresh() && p.TokenBucket?
    ensures AllowedOf(Decisions(p, life)) as real <= p.capacity + Gain(p.refillRate, Span(life))
  {
    if life == [] {
      assert Gain(p.refillRate, 0) == 0.0;
    } else {
      EveryRunWithinCeiling(p, life, 0, |life| - 1);
    }
  }

  lemma AllowedOfConcat(ds: seq<Decision>, es: seq<Decision>)
    ensures AllowedOf(ds + es) == AllowedOf(ds) + AllowedOf(es)
  {
    AllowedInConcat(ds, es, |es|);
  }

  lemma {:induction false} LivesWithinCeilings(p: Policy, lives: seq<seq<Instant>>)
    requires p.Fresh() && p.TokenBucket?
    ensures AllowedOf(DecideEach(p, lives)) as real <= Ceilings(p, lives)
  {
    if lives != [] {
      var (front, last) := (lives[..|lives| - 1], lives[|lives| - 1]);
      LivesWithinCeilings(p, front);
      OneLifeWithinCeiling(p, last);
      AllowedOfConcat(DecideEach(p, front), Decisions(p, last));
    }
  }

  lemma LocalsWithinCeilings(p: Policy, locals: seq<Local>)
    requires p.Fresh() && p.TokenBucket?
    ensures AllowedOf(ReplayDecisions(p, locals)) as real <= Ceilings(p, Lives(locals))
  {
    ReplayIsEach(p, locals);
    LivesWithinCeilings(p, Lives(locals));
  }

  /**
   Under the token bucket, with any clock, a signature gets at most the ceilings of its lives through
   (`CeilingsInTime`: one capacity per time its state is created, plus the rate over the time that passed
   forward within each life), plus whatever failed open.
  */
  lemma BucketLimitEndToEnd(config: LimiterConfig, ws: seq<World>, steps: seq<Step>, s: EventSignature, n: nat)
    requires IsRun(config, ws, steps) && n <= |steps|
    requires config.defaultPolicy.TokenBucket? && config.defaultPolicy.Fresh()
    ensures LetThrough(config, ws, steps, s, n) as real
         <= Ceilings(config.defaultPolicy, Lives(Project(config, ws, steps, s, n)))
            + FailedOpen(config, ws, steps, s, n) as real
  {
    LetThroughSplits(config, ws, steps, s, n);
    DecisionsAreLocal(config, ws, steps, s, n);
    LocalsWithinCeilings(config.defaultPolicy, Project(config, ws, steps, s, n));
  }

  // ---- The window end to end ----

  ghost function Times(lives: seq<seq<Instant>>): seq<Instant> {
    if lives == [] then [] else Times(lives[..|lives| - 1]) + lives[|lives| - 1]
  }

  lemma {:induction false} EachDecidesAll(p: Policy, lives: seq<seq<Instant>>)
    ensures |DecideEach(p, lives)| == |Times(lives)|
  {
    if lives != [] {
      EachDecidesAll(p, lives[..|lives| - 1]);
    }
  }

  lemma {:induction false} WithinOfPrefix(ds: seq<Decision>, ts: seq<Instant>, es: seq<Decision>, us: seq<Instant>,
                                          n: nat, a: Instant, b: Instant)
    requires |ds| == |ts| && |es| == |us| && n <= |ds|
    ensures AllowedWithin(ds + es, ts + us, n, a, b) == AllowedWithin(ds, ts, n, a, b)
  {
    if n > 0 {
      WithinOfPrefix(ds, ts, es, us, n - 1, a, b);
    }
  }

  lemma {:induction false} WithinConcat(ds: seq<Decision>, ts: seq<Instant>, es: seq<Decision>, us: seq<Instant>,
                                        n: nat, a: Instant, b: Instant)
    requires |ds| == |ts| && |es| == |us| && n <= |es|
    ensures AllowedWithin(ds + es, ts + us, |ds| + n, a, b)
         == AllowedWithin(ds, ts, |ds|, a, b) + AllowedWithin(es, us, n, a, b)
  {
    if n == 0 {
      WithinOfPrefix(ds, ts, es, us, |ds|, a, b);
    } else {
      WithinConcat(ds, ts, es, us, n - 1, a, b);
      assert (ds + es)[|ds| + n - 1] == es[n - 1] && (ts + us)[|ds| + n - 1] == us[n - 1];
    }
  }

  /** Of decisions on events at these times, how many are allowed in `[a, b]`. */
  ghost function CountIn(ds: seq<Decision>, ts: seq<Instant>, a: Instant, b: Instant): nat
    requires |ds| == |ts|
  {
    AllowedWithin(ds, ts, |ts|, a, b)
  }

  lemma CountConcat(ds: seq<Decision>, ts: seq<Instant>, es: seq<Decision>, us: seq<Instant>, a: Instant, b: Instant)
    requires |ds| == |ts| && |es| == |us|
    ensures CountIn(ds + es, ts + us, a, b) == CountIn(ds, ts, a, b) + CountIn(es, us, a, b)
  {
    WithinConcat(ds, ts, es, us, |us|, a, b);
  }

  /** What the lives have let through in one closed interval of the window's length. */
  ghost function LetThroughWithin(p: Policy, lives: seq<seq<Instant>>, a: Instant): nat
    requires p.TimeWindow?
  {
    if lives == [] then 0
    else
      var last := lives[|lives| - 1];
      LetThroughWithin(p, lives[..|lives| - 1], a) + CountIn(Decisions(p, last), last, a, a + p.window)
  }

  lemma {:induction false} WithinIsSum(p: Policy, lives: seq<seq<Instant>>, a: Instant)
    requires p.TimeWindow? && |DecideEach(p, lives)| == |Times(lives)|
    ensures CountIn(DecideEach(p, lives), Times(lives), a, a + p.window) == LetThroughWithin(p, lives, a)
  {
    if lives != [] {
      var (front, last) := (lives[..|lives| - 1], lives[|lives| - 1]);
      EachDecidesAll(p, front);
      WithinIsSum(p, front, a);
      CountConcat(DecideEach(p, front), Times(front), Decisions(p, last), last, a, a + p.window);
    }
  }

  ghost predicate EachMonotone(lives: seq<seq<Instant>>) {
    forall i | 0 <= i < |lives| :: Nondecreasing(lives[i])
  }

  /** One limit per life. */
  ghost function Allowance(p: Policy, lives: seq<seq<Instant>>): nat
    requires p.TimeWindow?
  {
    if lives == [] then 0 else Allowance(p, lives[..|lives| - 1]) + p.maxEvents
  }

  lemma AllowanceInLives(p: Policy, locals: seq<Local>)
    requires p.TimeWindow?
    ensures Allowance(p, Lives(locals)) == (Evictions(locals) + 1) * p.maxEvents
  {
    AllowanceIsProduct(p, Lives(locals));
  }

  lemma {:induction false} AllowanceIsProduct(p: Policy, lives: seq<seq<Instant>>)
    requires p.TimeWindow?
    ensures Allowance(p, lives) == |lives| * p.maxEvents
  {
    if lives != [] {
      AllowanceIsProduct(p, lives[..|lives| - 1]);
      TimesSuccessor(|lives| - 1, p.maxEvents);
    }
  }

  lemma {:induction false} LivesWithinWindow(p: Policy, lives: seq<seq<Instant>>, a: Instant)
    requires p.Fresh() && p.TimeWindow? && EachMonotone(lives)
    ensures LetThroughWithin(p, lives, a) <= Allowance(p, lives)
  {
    if lives != [] {
      var (front, last) := (lives[..|lives| - 1], lives[|lives| - 1]);
      LivesWithinWindow(p, front, a);
      OneWindowBounded(p, last, |last|, a);
    }
  }

  lemma LocalsWithinWindow(p: Policy, locals: seq<Local>, ds: seq<Decision>, a: Instant)
    requires p.Fresh() && p.TimeWindow? && EachMonotone(Lives(locals)) && ds == ReplayDecisions(p, locals)
    ensures |ds| == |ArrivalTimes(locals)|
    ensures CountIn(ds, ArrivalTimes(locals), a, a + p.window) <= Allowance(p, Lives(locals))
  {
    ReplayIsEach(p, locals);
    LivesHoldAllTimes(locals);
    EachDecidesAll(p, Lives(locals));
    WithinIsSum(p, Lives(locals), a);
    LivesWithinWindow(p, Lives(locals), a);
  }

  /** The consulted events' times, in order. */
  ghost function ArrivalTimes(locals: seq<Local>): seq<Instant> {
    if locals == [] then []
    else
      ArrivalTimes(locals[..|locals| - 1])
      + match locals[|locals| - 1]
        case Arrive(now) => [now]
        case Evict => []
  }

  lemma {:induction false} LivesHoldAllTimes(locals: seq<Local>)
    ensures Times(Lives(locals)) == ArrivalTimes(locals)
  {
    if locals == [] {
      assert Times([[]]) == [];
    } else {
      var (init, l) := (locals[..|locals| - 1], locals[|locals| - 1]);
      var lives := Lives(init);
      LivesHoldAllTimes(init);
      match l {
        case Arrive(now) =>
          var longer := Lives(locals);
          assert longer[..|longer| - 1] == lives[..|lives| - 1];
          assert Times(longer) == Times(lives[..|lives| - 1]) + (lives[|lives| - 1] + [now]);
        case Evict =>
          assert (lives + [[]])[..|lives|] == lives;
      }
    }
  }

  /** Events of the signature let through in `[a, b]`, by its policy or because the limiter failed open. */
  ghost function LetThroughIn(config: LimiterConfig, ws: seq<World>, steps: seq<Step>, s: EventSignature, n: nat,
                              a: Instant, b: Instant): nat
    requires IsRun(config, ws, steps) && n <= |steps|
  {
    if n == 0 then 0
    else
      LetThroughIn(config, ws, steps, s, n - 1, a, b)
      + if AllowsIn(config, ws[n - 1].core, steps[n - 1], s, a, b) then 1 else 0
  }

  ghost function FailedOpenIn(config: LimiterConfig, ws: seq<World>, steps: seq<Step>, s: EventSignature, n: nat,
                              a: Instant, b: Instant): nat
    requires IsRun(config, ws, steps) && n <= |steps|
  {
    if n == 0 then 0
    else
      FailedOpenIn(config, ws, steps, s, n - 1, a, b)
      + if FailsOpenIn(config, ws[n - 1].core, steps[n - 1], s, a, b) then 1 else 0
  }

  ghost predicate AllowsIn(config: LimiterConfig, core: Core, step: Step, s: EventSignature, a: Instant, b: Instant) {
    && step.CheckEvent? && step.event.signature == s && a <= step.event.now <= b
    && Check(config, core, step.event).1 == Allow
  }

  ghost predicate FailsOpenIn(config: LimiterConfig, core: Core, step: Step, s: EventSignature, a: Instant, b: Instant)
  {
    && step.CheckEvent? && step.event.signature == s && a <= step.event.now <= b
    && !Consulted(config, core, step.event)
  }

  /** What a step adds to a signature's decisions and their times. */
  ghost function DecisionPart(config: LimiterConfig, core: Core, step: Step, s: EventSignature): seq<Decision> {
    if step.CheckEvent? && step.event.signature == s && Consulted(config, core, step.event)
    then [Check(config, core, step.event).1] else []
  }

  ghost function TimePart(config: LimiterConfig, core: Core, step: Step, s: EventSignature): seq<Instant> {
    if step.CheckEvent? && step.event.signature == s && Consulted(config, core, step.event)
    then [step.event.now] else []
  }

  lemma CountOne(d: Decision, t: Instant, a: Instant, b: Instant)
    ensures CountIn([d], [t], a, b) == if d == Allow && a <= t <= b then 1 else 0
  {
    assert AllowedWithin([d], [t], 0, a, b) == 0;
  }

  lemma PartCounts(config: LimiterConfig, core: Core, step: Step, s: EventSignature, a: Instant, b: Instant)
    ensures var (ds, ts) := (DecisionPart(config, core, step, s), TimePart(config, core, step, s));
            && |ds| == |ts|
            && (if AllowsIn(config, core, step, s, a, b) then 1 else 0)
               == CountIn(ds, ts, a, b) + if FailsOpenIn(config, core, step, s, a, b) then 1 else 0
  {
    if step.CheckEvent? && step.event.signature == s && Consulted(config, core, step.event) {
      CountOne(Check(config, core, step.event).1, step.event.now, a, b);
    } else if step.CheckEvent? && !Consulted(config, core, step.event) {
      FailsOpen(config, core, step.event);
    }
  }

  lemma ArrivalTimesSnoc(locals: seq<Local>, l: Local)
    ensures ArrivalTimes(locals + [l]) == ArrivalTimes(locals) + if l.Arrive? then [l.now] else []
  {
    assert (locals + [l])[..|locals|] == locals;
  }

  lemma PartTimes(config: LimiterConfig, core: Core, step: Step, s: EventSignature, before: seq<Local>)
    requires step.CheckEvent? ==> CanCheck(config, core, step.event)
    ensures ArrivalTimes(before + LocalPart(step, s, step.CheckEvent? && Consulted(config, core, step.event)))
         == ArrivalTimes(before) + TimePart(config, core, step, s)
  {
    assert before + [] == before;
    if step.CheckEvent? {
      ArrivalTimesSnoc(before, Arrive(step.event.now));
      ArrivalTimesSnoc(before, Evict);
    }
  }

  lemma DecisionsForSnoc(config: LimiterConfig, ws: seq<World>, steps: seq<Step>, s: EventSignature, n: nat)
    requires IsRun(config, ws, steps) && n < |steps|
    ensures DecisionsFor(config, ws, steps, s, n + 1)
         == DecisionsFor(config, ws, steps, s, n) + DecisionPart(config, ws[n].core, steps[n], s)
    ensures ArrivalTimes(Project(config, ws, steps, s, n + 1))
         == ArrivalTimes(Project(config, ws, steps, s, n)) + TimePart(config, ws[n].core, steps[n], s)
  {
    PartTimes(config, ws[n].core, steps[n], s, Project(config, ws, steps, s, n));
  }

  lemma {:induction false} LetThroughInSplits(config: LimiterConfig, ws: seq<World>, steps: seq<Step>,
                                              s: EventSignature, n: nat, a: Instant, b: Instant)
    requires IsRun(config, ws, steps) && n <= |steps|
    ensures var (ds, ts) := (DecisionsFor(config, ws, steps, s, n), ArrivalTimes(Project(config, ws, steps, s, n)));
            && |ds| == |ts|
            && LetThroughIn(config, ws, steps, s, n, a, b)
               == CountIn(ds, ts, a, b) + FailedOpenIn(config, ws, steps, s, n, a, b)
  {
    if n > 0 {
      LetThroughInSplits(config, ws, steps, s, n - 1, a, b);
      var (core, step) := (ws[n - 1].core, steps[n - 1]);
      DecisionsForSnoc(config, ws, steps, s, n - 1);
      PartCounts(config, core, step, s, a, b);
      CountConcat(DecisionsFor(config, ws, steps, s, n - 1), ArrivalTimes(Project(config, ws, steps, s, n - 1)),
                  DecisionPart(config, core, step, s), TimePart(config, core, step, s), a, b);
    }
  }

  /**
   Under the window policy, with a clock that does not step back within a life, the events of a signature let
   through in any closed interval of the window's length are at most the allowance of its lives
   (`AllowanceInLives`: maxEvents per time its state was created), plus those that failed open in the interval.
  */
  lemma WindowLimitEndToEnd(config: LimiterConfig, ws: seq<World>, steps: seq<Step>, s: EventSignature, n: nat,
                            a: Instant)
    requires IsRun(config, ws, steps) && n <= |steps|
    requires config.defaultPolicy.TimeWindow? && config.defaultPolicy.Fresh()
    requires EachMonotone(Lives(Project(config, ws, steps, s, n)))
    ensures var (p, lives) := (config.defaultPolicy, Lives(Project(config, ws, steps, s, n)));
            LetThroughIn(config, ws, steps, s, n, a, a + p.window)
            <= Allowance(p, lives) + FailedOpenIn(config, ws, steps, s, n, a, a + p.window)
  {
    var (p, locals) := (config.defaultPolicy, Project(config, ws, steps, s, n));
    var ds := DecisionsFor(config, ws, steps, s, n);
    assert |ds| == |ArrivalTimes(locals)|
        && CountIn(ds, ArrivalTimes(locals), a, a + p.window) <= Allowance(p, Lives(locals)) by {
      DecisionsAreLocal(config, ws, steps, s, n);
      LocalsWithinWindow(p, locals, ds, a);
    }
    LetThroughInSplits(config, ws, steps, s, n, a, a + p.window);
  }
}

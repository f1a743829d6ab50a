/**
 Exactly-once delivery and conservation, as invariants of every run of the system.
*/
module ThrottleTheory {
  import opened Wrappers
  import opened Machine
  import opened Collections
  import opened Policies
  import opened SuppressionCounters
  import opened LedgerTheory
  import opened Throttle

  // ---- Sums over maps ----

  lemma {:induction false} TotalRemove(m: map<EventSignature, nat>, s: EventSignature)
    requires s in m
    ensures Total(m) == m[s] + Total(m - {s})
    decreases |m|
  {
    var t :| t in m && Total(m) == m[t] + Total(m - {t});
    if t != s {
      assert |m.Keys - {t}| == |m.Keys| - 1 && |m.Keys - {s}| == |m.Keys| - 1;
      assert (m - {t}).Keys == m.Keys - {t} && (m - {s}).Keys == m.Keys - {s};
      TotalRemove(m - {t}, s);
      TotalRemove(m - {s}, t);
      assert m - {t} - {s} == m - {s} - {t};
    }
  }

  lemma TotalUpdate(m: map<EventSignature, nat>, s: EventSignature, n: nat)
    ensures Total(m[s := n]) == n + Total(m - {s})
    ensures Total(m) == (if s in m then m[s] else 0) + Total(m - {s})
  {
    TotalRemove(m[s := n], s);
    assert m[s := n] - {s} == m - {s};
    if s in m {
      TotalRemove(m, s);
    } else {
      assert m - {s} == m;
    }
  }

  // ---- One counter's account ----

  /** The log position up to which a counter's suppressions were delivered. */
  ghost function DeliveredUpTo(claims: seq<Claim>): nat {
    if claims == [] then 0 else claims[|claims| - 1].totalCount
  }

  /** The claims are consecutive slices of the log from its beginning, none shorter than the minimum. */
  ghost predicate Partition(l: Ledger, claims: seq<Claim>, minCount: nat) {
    forall i | 0 <= i < |claims| :: IsSlice(l, claims, minCount, i)
  }

  ghost predicate IsSlice(l: Ledger, claims: seq<Claim>, minCount: nat, i: nat)
    requires i < |claims|
  {
    && l.Owns(claims[i])
    && claims[i].previousReportedCount == (if i == 0 then 0 else claims[i - 1].totalCount)
    && claims[i].count >= Max(1, minCount)
  }

  /** A claim in flight is exactly what lies between the delivered position and the cursor. */
  ghost predicate IsNext(l: Ledger, claims: seq<Claim>, claim: Claim, minCount: nat) {
    && l.Owns(claim) && claim.count >= Max(1, minCount)
    && claim.previousReportedCount == DeliveredUpTo(claims) && claim.totalCount == l.cursor
  }

  /** A counter, the claims delivered from it, and the one in flight if there is one. */
  ghost predicate Account(l: Ledger, claims: seq<Claim>, flying: Option<Claim>, minCount: nat) {
    && l.Valid()
    && Partition(l, claims, minCount)
    && match flying
       case Some(claim) => IsNext(l, claims, claim, minCount)
       case None => l.cursor == DeliveredUpTo(claims)
  }

  lemma OwnsOnlyTheLog(l: Ledger, l': Ledger, claim: Claim)
    requires l.Owns(claim) && l.initial == l'.initial && l.log <= l'.log
    ensures l'.Owns(claim)
  {
  }

  lemma PartitionOnlyTheLog(l: Ledger, l': Ledger, claims: seq<Claim>, minCount: nat)
    requires Partition(l, claims, minCount) && l.initial == l'.initial && l.log <= l'.log
    ensures Partition(l', claims, minCount)
    ensures DeliveredUpTo(claims) <= |l.log|
  {
    forall i | 0 <= i < |claims| ensures IsSlice(l', claims, minCount, i) {
      assert IsSlice(l, claims, minCount, i);
      OwnsOnlyTheLog(l, l', claims[i]);
    }
    if claims != [] {
      assert IsSlice(l, claims, minCount, |claims| - 1);
    }
  }

  lemma RecordKeepsAccount(l: Ledger, now: Instant, claims: seq<Claim>, flying: Option<Claim>, minCount: nat)
    requires Account(l, claims, flying, minCount)
    ensures Account(l.Record(now), claims, flying, minCount)
  {
    PartitionOnlyTheLog(l, l.Record(now), claims, minCount);
    if flying.Some? {
      OwnsOnlyTheLog(l, l.Record(now), flying.value);
    }
  }

  lemma ClaimKeepsAccount(l: Ledger, claims: seq<Claim>, minCount: nat)
    requires Account(l, claims, None, minCount)
    ensures var (l', claim) := l.ClaimUnreported(minCount);
            && Account(l', claims, claim, minCount)
            && l'.Pending() + (if claim.Some? then claim.value.count else 0) == l.Pending()
            && (claim.Some? ==> claim.value.totalCount > 0)
  {
    PartitionOnlyTheLog(l, l.(cursor := |l.log|), claims, minCount);
  }

  lemma DeliveryKeepsAccount(l: Ledger, claims: seq<Claim>, claim: Claim, minCount: nat)
    requires Account(l, claims, Some(claim), minCount)
    ensures Account(l, claims + [claim], None, minCount)
  {
    forall i | 0 <= i < |claims| + 1 ensures IsSlice(l, claims + [claim], minCount, i) {
      if i < |claims| {
        assert IsSlice(l, claims, minCount, i);
      }
    }
  }

  lemma RollbackKeepsAccount(l: Ledger, claims: seq<Claim>, claim: Claim, minCount: nat)
    requires Account(l, claims, Some(claim), minCount)
    ensures Account(l.RollBack(claim).0, claims, None, minCount)
    ensures l.RollBack(claim).0.Pending() == l.Pending() + claim.count
  {
    PartitionOnlyTheLog(l, l.(cursor := claim.previousReportedCount), claims, minCount);
  }

  lemma RollbackOfNothingClaimed(l: Ledger, claim: Claim)
    requires l.cursor == 0 && claim.totalCount > 0
    ensures l.RollBack(claim).0 == l
  {
  }

  // ---- The invariant ----

  ghost function FlyingClaim(w: World, s: EventSignature): Option<Claim> {
    if s in w.inFlight && !w.inFlight[s].orphan then Some(w.inFlight[s].claim) else None
  }

  /** Everything the emitter owes and has done for one resident signature. */
  ghost predicate ExactlyOnce(config: LimiterConfig, w: World, s: EventSignature)
    requires s in w.core.store
  {
    Account(w.core.store[s].counter, Delivered(w, s), FlyingClaim(w, s), config.minCount)
  }

  ghost predicate PhaseFits(w: World) {
    match w.phase
    case Idle => w.inFlight == map[]
    case Collecting(visited, due) => w.inFlight.Keys <= visited && due <= w.core.store.Keys && due !! visited
    case _ => true
  }

  /** A rollback aimed at a counter recreated after an eviction finds nothing delivered, so nothing claimed. */
  ghost predicate OrphansHarmless(w: World) {
    forall s | s in w.inFlight ::
      && w.inFlight[s].claim.totalCount > 0
      && (!w.inFlight[s].orphan ==> s in w.core.store)
      && (w.inFlight[s].orphan ==> Delivered(w, s) == [])
  }

  ghost predicate Inv(config: LimiterConfig, w: World) {
    && PhaseFits(w)
    && OrphansHarmless(w)
    && (forall s | s in w.core.store :: ExactlyOnce(config, w, s))
    && w.slices.Keys <= w.core.store.Keys
  }

  lemma InvImpliesLedgersValid(config: LimiterConfig, w: World)
    requires Inv(config, w)
    ensures LedgersValid(w)
  {
    forall s | s in w.core.store ensures w.core.store[s].counter.Valid() {
      assert ExactlyOnce(config, w, s);
    }
  }

  // ---- Checks ----

  /** What a check does to counters and to the emitter's books. */
  ghost predicate CheckEffect(w: World, e: Event, consulted: bool, suppressed: bool, w': World) {
    var s := e.signature;
    && (e.victim.Some? ==> consulted && e.victim.value in w.core.store && s !in w.core.store)
    && w'.phase == (if e.victim.Some? then w.phase.Without(e.victim.value) else w.phase)
    && w'.delivered == w.delivered && w'.checked == w.checked + 1
    && w'.inFlight.Keys == w.inFlight.Keys
    && (forall t | t in w.inFlight ::
          && w'.inFlight[t].claim == w.inFlight[t].claim
          && w'.inFlight[t].orphan == (w.inFlight[t].orphan || e.victim == Some(t)))
    && w'.slices == (if e.victim.Some? then w.slices - {e.victim.value} else w.slices)
    && w'.core.store.Keys == (if consulted then w.core.store.Keys + {s} else w.core.store.Keys)
                             - (if e.victim.Some? then {e.victim.value} else {})
    && (forall t | t in w'.core.store && t != s :: w'.core.store[t].counter == w.core.store[t].counter)
    && (s in w'.core.store ==>
          var before := if s in w.core.store then w.core.store[s].counter else NewLedger(e.now);
          w'.core.store[s].counter == if suppressed then before.Record(e.now) else before)
    && (suppressed ==> consulted)
    && w'.core.suppressed == w.core.suppressed + (if suppressed then 1 else 0)
    && w'.core.allowed == w.core.allowed + (if suppressed then 0 else 1)
  }

  lemma CheckHasEffect(config: LimiterConfig, w: World, e: Event)
    requires LedgersValid(w) && Enabled(config, w, CheckEvent(e))
    ensures CheckEffect(w, e, Consulted(config, w.core, e), Check(config, w.core, e).1 == Suppress,
                        Do(config, w, CheckEvent(e)))
    ensures Do(config, w, CheckEvent(e)).lost
         == w.lost + if e.victim.Some? then w.core.store[e.victim.value].counter.Pending() else 0
  {
  }

  lemma CheckKeepsResident(config: LimiterConfig, w: World, e: Event, consulted: bool, suppressed: bool, w': World,
                           t: EventSignature)
    requires CheckEffect(w, e, consulted, suppressed, w') && t in w'.core.store && t in w.core.store
    requires ExactlyOnce(config, w, t)
    ensures ExactlyOnce(config, w', t)
  {
    var l := w.core.store[t].counter;
    assert Delivered(w', t) == Delivered(w, t) && FlyingClaim(w', t) == FlyingClaim(w, t);
    RecordKeepsAccount(l, e.now, Delivered(w, t), FlyingClaim(w, t), config.minCount);
    assert w'.core.store[t].counter == l || w'.core.store[t].counter == l.Record(e.now);
  }

  lemma CheckKeepsNew(config: LimiterConfig, w: World, e: Event, consulted: bool, suppressed: bool, w': World)
    requires CheckEffect(w, e, consulted, suppressed, w') && e.signature in w'.core.store
    requires e.signature !in w.core.store && e.signature !in w.slices
    requires e.signature in w.inFlight ==> w.inFlight[e.signature].orphan
    ensures ExactlyOnce(config, w', e.signature)
  {
    var unused := NewLedger(e.now);
    assert Delivered(w', e.signature) == [] && FlyingClaim(w', e.signature) == None;
    assert Account(unused, [], None, config.minCount);
    RecordKeepsAccount(unused, e.now, [], None, config.minCount);
  }

  lemma CheckKeepsBooks(w: World, e: Event, consulted: bool, suppressed: bool, w': World)
    requires CheckEffect(w, e, consulted, suppressed, w')
    requires PhaseFits(w) && OrphansHarmless(w) && w.slices.Keys <= w.core.store.Keys
    ensures PhaseFits(w') && OrphansHarmless(w') && w'.slices.Keys <= w'.core.store.Keys
  {
    if w.inFlight == map[] {
      assert w'.inFlight.Keys == {};
      assert w'.inFlight == map[];
    }
  }

  lemma CheckKeepsInv(config: LimiterConfig, w: World, e: Event, consulted: bool, suppressed: bool, w': World)
    requires Inv(config, w) && CheckEffect(w, e, consulted, suppressed, w')
    ensures Inv(config, w')
  {
    CheckKeepsBooks(w, e, consulted, suppressed, w');
    forall t | t in w'.core.store ensures ExactlyOnce(config, w', t) {
      if t in w.core.store {
        CheckKeepsResident(config, w, e, consulted, suppressed, w', t);
      } else {
        CheckKeepsNew(config, w, e, consulted, suppressed, w');
      }
    }
  }

  // ---- Steps that touch one counter ----

  /** Only the counter of `s` and the batch entry of `s` may differ. */
  ghost predicate OneCounterEffect(w: World, s: EventSignature, counter: Ledger, w': World) {
    && s in w.core.store
    && w'.core.store.Keys == w.core.store.Keys
    && (forall t | t in w.core.store && t != s :: w'.core.store[t] == w.core.store[t])
    && w'.core.store[s].counter == counter
    && w'.slices == w.slices && w'.delivered == w.delivered && w'.checked == w.checked
    && w'.core.allowed == w.core.allowed && w'.core.suppressed == w.core.suppressed
    && w'.inFlight - {s} == w.inFlight - {s}
  }

  lemma VisitHasEffect(config: LimiterConfig, w: World, s: EventSignature)
    requires LedgersValid(w) && Enabled(config, w, Visit(s))
    ensures var (counter, claim) := w.core.store[s].counter.ClaimUnreported(config.minCount);
            var w' := Do(config, w, Visit(s));
            && OneCounterEffect(w, s, counter, w')
            && w'.phase == Collecting(w.phase.visited + {s}, w.phase.due - {s}) && w'.lost == w.lost
            && w'.inFlight == if claim.Some? then w.inFlight[s := InFlight(claim.value, false)] else w.inFlight
  {
  }

  lemma UndoHasEffect(config: LimiterConfig, w: World, s: EventSignature)
    requires LedgersValid(w) && Enabled(config, w, UndoClaim(s))
    ensures var w' := Do(config, w, UndoClaim(s));
            && OneCounterEffect(w, s, w.core.store[s].counter.RollBack(w.inFlight[s].claim).0, w')
            && w'.phase == w.phase && w'.inFlight == w.inFlight - {s}
            && w'.lost == w.lost + (if w.inFlight[s].orphan then w.inFlight[s].claim.count else 0)
  {
  }

  lemma OthersKeepAccount(config: LimiterConfig, w: World, s: EventSignature, counter: Ledger, w': World)
    requires Inv(config, w) && OneCounterEffect(w, s, counter, w')
    requires ExactlyOnce(config, w', s)
    ensures forall t | t in w'.core.store :: ExactlyOnce(config, w', t)
  {
    forall t | t in w'.core.store ensures ExactlyOnce(config, w', t) {
      assert ExactlyOnce(config, w, t);
      if t != s {
        OtherInFlightSame(w, s, w', t);
        assert Delivered(w', t) == Delivered(w, t) && FlyingClaim(w', t) == FlyingClaim(w, t);
      }
    }
  }

  lemma OtherInFlightSame(w: World, s: EventSignature, w': World, t: EventSignature)
    requires w'.inFlight - {s} == w.inFlight - {s} && t != s
    ensures t in w'.inFlight <==> t in w.inFlight
    ensures t in w.inFlight ==> w'.inFlight[t] == w.inFlight[t]
  {
    assert t in w'.inFlight <==> t in w'.inFlight - {s};
    assert t in w.inFlight <==> t in w.inFlight - {s};
    if t in w.inFlight {
      assert (w'.inFlight - {s})[t] == (w.inFlight - {s})[t];
    }
  }

  lemma VisitKeepsInv(config: LimiterConfig, w: World, s: EventSignature)
    requires Inv(config, w) && LedgersValid(w) && Enabled(config, w, Visit(s))
    ensures Inv(config, Do(config, w, Visit(s)))
  {
    var l := w.core.store[s].counter;
    var (counter, claim) := l.ClaimUnreported(config.minCount);
    VisitHasEffect(config, w, s);
    VisitResultFits(config, w, s, counter, claim, Do(config, w, Visit(s)));
  }

  lemma VisitResultFits(config: LimiterConfig, w: World, s: EventSignature, counter: Ledger, claim: Option<Claim>,
                        w': World)
    requires Inv(config, w) && OneCounterEffect(w, s, counter, w')
    requires (counter, claim) == w.core.store[s].counter.ClaimUnreported(config.minCount)
    requires w.phase.Collecting? && s !in w.phase.visited
    requires w'.phase == Collecting(w.phase.visited + {s}, w.phase.due - {s})
    requires w'.inFlight == if claim.Some? then w.inFlight[s := InFlight(claim.value, false)] else w.inFlight
    ensures Inv(config, w')
  {
    assert s !in w.inFlight && ExactlyOnce(config, w, s);
    ClaimKeepsAccount(w.core.store[s].counter, Delivered(w, s), config.minCount);
    assert ExactlyOnce(config, w', s) by {
      assert Delivered(w', s) == Delivered(w, s) && FlyingClaim(w', s) == claim;
    }
    OthersKeepAccount(config, w, s, counter, w');
    OneCounterKeepsOrphans(w, s, counter, w');
  }

  lemma OneCounterKeepsOrphans(w: World, s: EventSignature, counter: Ledger, w': World)
    requires OrphansHarmless(w) && OneCounterEffect(w, s, counter, w')
    requires s in w'.inFlight ==> !w'.inFlight[s].orphan && w'.inFlight[s].claim.totalCount > 0
    ensures OrphansHarmless(w')
  {
    forall t | t in w'.inFlight && t != s ensures t in w.inFlight && w'.inFlight[t] == w.inFlight[t] {
      OtherInFlightSame(w, s, w', t);
    }
  }

  lemma UndoKeepsInv(config: LimiterConfig, w: World, s: EventSignature)
    requires Inv(config, w) && LedgersValid(w) && Enabled(config, w, UndoClaim(s))
    ensures Inv(config, Do(config, w, UndoClaim(s)))
    ensures w.inFlight[s].orphan ==> Do(config, w, UndoClaim(s)).core == w.core
  {
    var w' := Do(config, w, UndoClaim(s));
    UndoHasEffect(config, w, s);
    UndoResultFits(config, w, s, w');
    if w.inFlight[s].orphan {
      UndoOfOrphan(config, w, s);
      assert w'.core.store == w.core.store;
    }
  }

  lemma UndoOfOrphan(config: LimiterConfig, w: World, s: EventSignature)
    requires Inv(config, w) && s in w.inFlight && s in w.core.store && w.inFlight[s].orphan
    ensures w.core.store[s].counter.RollBack(w.inFlight[s].claim).0 == w.core.store[s].counter
  {
    assert ExactlyOnce(config, w, s);
    RollbackOfNothingClaimed(w.core.store[s].counter, w.inFlight[s].claim);
  }

  lemma UndoneSignatureFits(config: LimiterConfig, w: World, s: EventSignature, w': World)
    requires Inv(config, w) && s in w.inFlight && s in w.core.store
    requires OneCounterEffect(w, s, w.core.store[s].counter.RollBack(w.inFlight[s].claim).0, w')
    requires s !in w'.inFlight
    ensures ExactlyOnce(config, w', s)
  {
    assert ExactlyOnce(config, w, s);
    assert Delivered(w', s) == Delivered(w, s) && FlyingClaim(w', s) == None;
    if w.inFlight[s].orphan {
      UndoOfOrphan(config, w, s);
    } else {
      RollbackKeepsAccount(w.core.store[s].counter, Delivered(w, s), w.inFlight[s].claim, config.minCount);
    }
  }

  lemma UndoResultFits(config: LimiterConfig, w: World, s: EventSignature, w': World)
    requires Inv(config, w) && s in w.inFlight && s in w.core.store
    requires OneCounterEffect(w, s, w.core.store[s].counter.RollBack(w.inFlight[s].claim).0, w')
    requires w.phase == RollingBack == w'.phase && w'.inFlight == w.inFlight - {s}
    ensures Inv(config, w')
  {
    assert ExactlyOnce(config, w, s);
    UndoneSignatureFits(config, w, s, w');
    OthersKeepAccount(config, w, s, w'.core.store[s].counter, w');
    OneCounterKeepsOrphans(w, s, w'.core.store[s].counter, w');
  }

  // ---- Steps that touch no counter ----

  lemma EmitKeepsInv(config: LimiterConfig, w: World)
    requires Inv(config, w) && LedgersValid(w) && Enabled(config, w, EmitReturns)
    ensures Inv(config, Do(config, w, EmitReturns))
  {
    var w' := Do(config, w, EmitReturns);
    assert w'.core == w.core && w'.inFlight == map[];
    forall s | s in w'.core.store ensures ExactlyOnce(config, w', s) {
      EmitDelivers(config, w, s);
    }
  }

  lemma EmitDelivers(config: LimiterConfig, w: World, s: EventSignature)
    requires Inv(config, w) && LedgersValid(w) && Enabled(config, w, EmitReturns) && s in w.core.store
    ensures Account(w.core.store[s].counter, Delivered(Do(config, w, EmitReturns), s), None, config.minCount)
  {
    assert ExactlyOnce(config, w, s);
    if FlyingClaim(w, s).Some? {
      DeliveryKeepsAccount(w.core.store[s].counter, Delivered(w, s), w.inFlight[s].claim, config.minCount);
    } else {
      assert Delivered(Do(config, w, EmitReturns), s) == Delivered(w, s);
    }
  }

  lemma PhaseStepKeepsInv(config: LimiterConfig, w: World, w': World)
    requires Inv(config, w) && w'.core == w.core && w'.slices == w.slices
    requires PhaseFits(w')
    requires w'.inFlight == w.inFlight
          || (w'.inFlight == map[] && forall s | s in w.inFlight :: w.inFlight[s].orphan)
    ensures Inv(config, w')
  {
    forall s | s in w'.core.store ensures ExactlyOnce(config, w', s) {
      assert ExactlyOnce(config, w, s);
      assert Delivered(w', s) == Delivered(w, s) && FlyingClaim(w', s) == FlyingClaim(w, s);
    }
  }

  lemma StepKeepsInv(config: LimiterConfig, w: World, step: Step)
    requires Inv(config, w) && LedgersValid(w) && Enabled(config, w, step)
    ensures Inv(config, Do(config, w, step))
  {
    match step {
      case CheckEvent(e) =>
        CheckHasEffect(config, w, e);
        CheckKeepsInv(config, w, e, Consulted(config, w.core, e), Check(config, w.core, e).1 == Suppress,
                      Do(config, w, step));
      case Visit(s) => VisitKeepsInv(config, w, s);
      case EmitReturns => EmitKeepsInv(config, w);
      case UndoClaim(s) => UndoKeepsInv(config, w, s);
      case _ => PhaseStepKeepsInv(config, w, Do(config, w, step));
    }
  }

  // ---- Runs ----

  ghost predicate IsRun(config: LimiterConfig, ws: seq<World>, steps: seq<Step>) {
    && |ws| == |steps| + 1
    && ws[0] == START
    && forall i | 0 <= i < |steps| ::
         LedgersValid(ws[i]) && Enabled(config, ws[i], steps[i]) && ws[i + 1] == Do(config, ws[i], steps[i])
  }

  lemma {:induction false} InvHolds(config: LimiterConfig, ws: seq<World>, steps: seq<Step>, n: nat)
    requires IsRun(config, ws, steps) && n < |ws|
    ensures Inv(config, ws[n])
  {
    if n > 0 {
      InvHolds(config, ws, steps, n - 1);
      StepKeepsInv(config, ws[n - 1], steps[n - 1]);
    }
  }

  /** The machine is never stuck on its own bookkeeping: ledgers stay valid after every enabled step. */
  lemma RunsExtend(config: LimiterConfig, ws: seq<World>, steps: seq<Step>, step: Step)
    requires IsRun(config, ws, steps) && Enabled(config, ws[|steps|], step)
    ensures LedgersValid(ws[|steps|])
    ensures IsRun(config, ws + [Do(config, ws[|steps|], step)], steps + [step])
  {
    assert LedgersValid(ws[|steps|]) by {
      InvHolds(config, ws, steps, |steps|);
      InvImpliesLedgersValid(config, ws[|steps|]);
    }
    var (ws', steps') := (ws + [Do(config, ws[|steps|], step)], steps + [step]);
    forall i | 0 <= i < |steps'|
      ensures LedgersValid(ws'[i]) && Enabled(config, ws'[i], steps'[i]) && ws'[i + 1] == Do(config, ws'[i], steps'[i])
    {
      assert ws'[i] == ws[i] && (i < |steps| ==> steps'[i] == steps[i] && ws'[i + 1] == ws[i + 1]);
    }
  }

  /** What is at most left to do before the emitter is idle again: visits, undos, and the steps between them. */
  ghost function Work(w: World): nat {
    match w.phase
    case Idle => 0
    case Collecting(visited, _) => 3 + 2 * |w.core.store.Keys - visited| + |w.inFlight|
    case Emitting => 2 + |w.inFlight|
    case RollingBack => 1 + |w.inFlight|
  }

  /** A tick ends: every step of a tick under way leaves less to do, and a step is enabled until nothing is. */
  lemma TicksEnd(config: LimiterConfig, ws: seq<World>, steps: seq<Step>, n: nat)
    requires IsRun(config, ws, steps) && n < |ws|
    ensures LedgersValid(ws[n])
    ensures forall step: Step | Enabled(config, ws[n], step) && !step.CheckEvent? && !step.StartCollecting? ::
              Work(Do(config, ws[n], step)) < Work(ws[n])
    ensures Work(ws[n]) > 0 ==>
              exists step: Step :: Enabled(config, ws[n], step) && !step.CheckEvent? && !step.StartCollecting?
    ensures Work(ws[n]) == 0 <==> ws[n].phase == Idle
  {
    var w := ws[n];
    InvHolds(config, ws, steps, n);
    InvImpliesLedgersValid(config, w);
    forall step: Step | Enabled(config, w, step) && !step.CheckEvent? && !step.StartCollecting?
      ensures Work(Do(config, w, step)) < Work(w)
    {
      EmitterStepWorks(config, w, step);
    }
    if Work(w) > 0 {
      var step := EmitterNotStuck(config, w);
    }
  }

  lemma VisitWorks(config: LimiterConfig, w: World, s: EventSignature)
    requires LedgersValid(w) && Enabled(config, w, Visit(s))
    ensures Work(Do(config, w, Visit(s))) < Work(w)
  {
    var w' := Do(config, w, Visit(s));
    var left := w.core.store.Keys - w.phase.visited;
    assert w'.core.store.Keys == w.core.store.Keys;
    assert w'.core.store.Keys - w'.phase.visited == left - {s};
    assert |left - {s}| == |left| - 1;
    SubsetCount(w'.inFlight.Keys, w.inFlight.Keys + {s});
    assert |w.inFlight.Keys + {s}| <= |w.inFlight.Keys| + 1;
  }

  lemma UndoWorks(config: LimiterConfig, w: World, s: EventSignature)
    requires LedgersValid(w) && Enabled(config, w, UndoClaim(s))
    ensures Work(Do(config, w, UndoClaim(s))) < Work(w)
  {
    assert (w.inFlight - {s}).Keys == w.inFlight.Keys - {s};
    assert |w.inFlight.Keys - {s}| == |w.inFlight.Keys| - 1;
  }

  lemma EmitterStepWorks(config: LimiterConfig, w: World, step: Step)
    requires LedgersValid(w) && Enabled(config, w, step) && !step.CheckEvent? && !step.StartCollecting?
    ensures Work(Do(config, w, step)) < Work(w)
  {
    match step {
      case Visit(s) => VisitWorks(config, w, s);
      case UndoClaim(s) => UndoWorks(config, w, s);
      case _ =>
    }
  }

  lemma EmitterNotStuck(config: LimiterConfig, w: World) returns (step: Step)
    requires Inv(config, w) && w.phase != Idle
    ensures Enabled(config, w, step) && !step.CheckEvent? && !step.StartCollecting?
  {
    match w.phase {
      case Collecting(_, due) =>
        if s :| s in due {
          step := Visit(s);
        } else {
          step := FinishCollecting;
        }
      case Emitting => step := EmitReturns;
      case RollingBack =>
        if s :| s in w.inFlight && !w.inFlight[s].orphan {
          step := UndoClaim(s);
        } else {
          step := FinishRollback;
        }
    }
  }

  // ---- A scan is complete ----

  /** If the counter of `s` had enough pending in `w`, the batch holds all of that. */
  ghost predicate ClaimedAt(config: LimiterConfig, w: World, s: EventSignature, inFlight: map<EventSignature, InFlight>)
  {
    && s in w.core.store && w.core.store[s].counter.Valid()
    && var l := w.core.store[s].counter;
       l.Pending() >= Max(1, config.minCount) ==>
         s in inFlight && inFlight[s] == InFlight(l.Slice(l.cursor, |l.log|), false)
  }

  /** A step that neither ends a scan nor evicts `s`. */
  ghost predicate ScanGoesOn(step: Step, s: EventSignature) {
    step != FinishCollecting && (step.CheckEvent? ==> step.event.victim != Some(s))
  }

  lemma ScanStep(config: LimiterConfig, w: World, step: Step, s: EventSignature)
    requires LedgersValid(w) && Enabled(config, w, step) && w.phase.Collecting? && ScanGoesOn(step, s)
    ensures var w' := Do(config, w, step);
            && w'.phase.Collecting? && w.phase.visited <= w'.phase.visited
            && (step != Visit(s) && s in w.phase.due ==> s in w'.phase.due)
            && (step != Visit(s) && s in w.inFlight ==> s in w'.inFlight && w'.inFlight[s] == w.inFlight[s])
            && (step == Visit(s) ==>
                  s !in w.phase.visited && s in w'.phase.visited && ClaimedAt(config, w, s, w'.inFlight))
  {
  }

  /** The scan visited `s` at step `k`, and the batch in `w` still holds what it claimed there. */
  ghost predicate VisitedAt(config: LimiterConfig, ws: seq<World>, steps: seq<Step>, s: EventSignature, k: nat,
                            w: World)
  {
    && k < |steps| && k < |ws| && steps[k] == Visit(s)
    && w.phase.Collecting? && s in w.phase.visited && ClaimedAt(config, ws[k], s, w.inFlight)
  }

  /** Step `i` starts a scan, and the steps from there to `j` neither end it nor evict `s`. */
  ghost predicate OneScan(steps: seq<Step>, s: EventSignature, i: nat, j: nat) {
    && i < j <= |steps| && steps[i] == StartCollecting
    && forall k | i < k < j :: ScanGoesOn(steps[k], s)
  }

  lemma {:induction false} DueUntilVisited(config: LimiterConfig, ws: seq<World>, steps: seq<Step>, s: EventSignature,
                                           i: nat, j: nat)
    requires IsRun(config, ws, steps) && OneScan(steps, s, i, j) && s in ws[i].core.store
    ensures ws[j].phase.Collecting?
    ensures s in ws[j].phase.due || exists k | i < k < j :: VisitedAt(config, ws, steps, s, k, ws[j])
  {
    if i + 1 < j {
      DueUntilVisited(config, ws, steps, s, i, j - 1);
      assert ScanGoesOn(steps[j - 1], s);
      ScanStep(config, ws[j - 1], steps[j - 1], s);
      assert ws[j] == Do(config, ws[j - 1], steps[j - 1]);
      if steps[j - 1] == Visit(s) {
        assert VisitedAt(config, ws, steps, s, j - 1, ws[j]);
      } else if s !in ws[j - 1].phase.due {
        var k :| i < k < j - 1 && VisitedAt(config, ws, steps, s, k, ws[j - 1]);
        assert VisitedAt(config, ws, steps, s, k, ws[j]);
      }
    }
  }

  /**
   A scan that finishes has visited every entry that was there from its start and never evicted, whatever checks
   and evictions came in between; and where there was enough pending at the visit, the batch it hands to the
   emission holds all of that.
  */
  lemma ScanIsComplete(config: LimiterConfig, ws: seq<World>, steps: seq<Step>, s: EventSignature, i: nat, j: nat)
    requires IsRun(config, ws, steps) && OneScan(steps, s, i, j) && s in ws[i].core.store
    requires j < |steps| && steps[j] == FinishCollecting
    ensures exists k | i < k < j :: VisitedAt(config, ws, steps, s, k, ws[j])
    ensures ws[j + 1].inFlight == ws[j].inFlight
  {
    DueUntilVisited(config, ws, steps, s, i, j);
  }

  /**
   Exactly-once delivery: in every reachable state, for every resident signature, the delivered slices are
   consecutive and disjoint from the start of its log, each of at least max(1, minCount) suppressions; when
   nothing is in flight they partition the log up to the reported cursor, and otherwise the claim in flight is
   exactly the rest up to the cursor. So a panicking emission, once rolled back, leaves the cursor where the
   last delivery left it. What each slice reports of itself is what the log says (`Describes`).
  */
  lemma DeliveredExactlyOnce(config: LimiterConfig, ws: seq<World>, steps: seq<Step>, n: nat, s: EventSignature)
    requires IsRun(config, ws, steps) && n < |ws| && s in ws[n].core.store
    ensures ExactlyOnce(config, ws[n], s)
    ensures ws[n].phase == Idle ==>
              ws[n].core.store[s].counter.cursor == DeliveredUpTo(Delivered(ws[n], s))
    ensures forall i | 0 <= i < |Delivered(ws[n], s)| :: Describes(ws[n].core.store[s].counter, Delivered(ws[n], s)[i])
  {
    InvHolds(config, ws, steps, n);
    var (l, claims) := (ws[n].core.store[s].counter, Delivered(ws[n], s));
    forall i | 0 <= i < |claims| ensures Describes(l, claims[i]) {
      assert IsSlice(l, claims, config.minCount, i);
      OwnedIsDescribed(l, claims[i]);
    }
  }

  lemma PartitionPrefix(l: Ledger, claims: seq<Claim>, minCount: nat, n: nat)
    requires Partition(l, claims, minCount) && n <= |claims|
    ensures Partition(l, claims[..n], minCount)
  {
    forall i | 0 <= i < n ensures IsSlice(l, claims[..n], minCount, i) {
      assert IsSlice(l, claims, minCount, i);
    }
  }

  /** Every log entry below the delivered position is in exactly one delivered slice. */
  lemma {:induction false} EntryInOneSlice(l: Ledger, claims: seq<Claim>, minCount: nat, x: nat) returns (i: nat)
    requires Partition(l, claims, minCount) && x < DeliveredUpTo(claims)
    ensures i < |claims| && claims[i].previousReportedCount <= x < claims[i].totalCount
    ensures forall j | 0 <= j < |claims| && claims[j].previousReportedCount <= x < claims[j].totalCount :: j == i
    decreases |claims|
  {
    var last := |claims| - 1;
    assert IsSlice(l, claims, minCount, last);
    if claims[last].previousReportedCount <= x {
      i := last;
      forall j | 0 <= j < last ensures claims[j].totalCount <= x {
        SlicesAscend(l, claims, minCount, j, last);
      }
    } else {
      PartitionPrefix(l, claims, minCount, last);
      assert claims[..last][last - 1] == claims[last - 1];
      i := EntryInOneSlice(l, claims[..last], minCount, x);
    }
  }

  lemma {:induction false} SlicesAscend(l: Ledger, claims: seq<Claim>, minCount: nat, i: nat, j: nat)
    requires Partition(l, claims, minCount) && i < j < |claims|
    ensures claims[i].totalCount <= claims[j].previousReportedCount
    decreases j
  {
    assert IsSlice(l, claims, minCount, j);
    if i < j - 1 {
      SlicesAscend(l, claims, minCount, i, j - 1);
      assert IsSlice(l, claims, minCount, j - 1);
    }
  }

  // ---- Conservation ----

  ghost function PendingCounts(w: World): map<EventSignature, nat>
    requires LedgersValid(w)
  {
    map s | s in w.core.store :: w.core.store[s].counter.Pending()
  }

  /** Both metrics are accounted for, to the event. */
  ghost predicate Conserved(w: World)
    requires LedgersValid(w)
  {
    && w.core.allowed + w.core.suppressed == w.checked
    && w.core.suppressed
       == w.delivered + Total(InFlightCounts(w.inFlight)) + Total(PendingCounts(w)) + w.lost
  }

  lemma PendingAfterCheck(w: World, e: Event, consulted: bool, suppressed: bool, w': World)
    requires LedgersValid(w) && LedgersValid(w') && CheckEffect(w, e, consulted, suppressed, w')
    ensures var pending, pending' := PendingCounts(w), PendingCounts(w');
            var rest := if e.victim.Some? then pending - {e.victim.value} else pending;
            pending' == if consulted then rest[e.signature := pending'[e.signature]] else rest
    ensures consulted ==>
              PendingCounts(w')[e.signature]
              == (if e.signature in w.core.store then PendingCounts(w)[e.signature] else 0)
                 + (if suppressed then 1 else 0)
  {
  }

  lemma CheckConserves(config: LimiterConfig, w: World, e: Event, consulted: bool, suppressed: bool, w': World)
    requires LedgersValid(w) && LedgersValid(w') && CheckEffect(w, e, consulted, suppressed, w') && Conserved(w)
    requires w'.lost == w.lost + if e.victim.Some? then w.core.store[e.victim.value].counter.Pending() else 0
    ensures Conserved(w')
  {
    assert InFlightCounts(w'.inFlight) == InFlightCounts(w.inFlight);
    PendingAfterCheck(w, e, consulted, suppressed, w');
    var pending, pending' := PendingCounts(w), PendingCounts(w');
    if e.victim.Some? {
      TotalRemove(pending, e.victim.value);
      TotalUpdate(pending - {e.victim.value}, e.signature, pending'[e.signature]);
    } else if consulted {
      TotalUpdate(pending, e.signature, pending'[e.signature]);
    }
  }

  lemma OneCounterPending(w: World, s: EventSignature, counter: Ledger, w': World)
    requires LedgersValid(w) && LedgersValid(w') && OneCounterEffect(w, s, counter, w')
    ensures Total(PendingCounts(w')) == Total(PendingCounts(w)) - w.core.store[s].counter.Pending()
                                        + counter.Pending()
  {
    var pending, pending' := PendingCounts(w), PendingCounts(w');
    TotalUpdate(pending, s, pending'[s]);
    assert pending' == pending[s := pending'[s]];
  }

  lemma VisitConserves(config: LimiterConfig, w: World, s: EventSignature)
    requires Inv(config, w) && LedgersValid(w) && Enabled(config, w, Visit(s)) && Conserved(w)
    requires LedgersValid(Do(config, w, Visit(s)))
    ensures Conserved(Do(config, w, Visit(s)))
  {
    var (counter, claim) := w.core.store[s].counter.ClaimUnreported(config.minCount);
    var w' := Do(config, w, Visit(s));
    VisitHasEffect(config, w, s);
    OneCounterPending(w, s, counter, w');
    assert s !in w.inFlight && ExactlyOnce(config, w, s);
    ClaimKeepsAccount(w.core.store[s].counter, Delivered(w, s), config.minCount);
    if claim.Some? {
      FlyingAdded(w.inFlight, s, claim.value);
    }
  }

  lemma FlyingAdded(inFlight: map<EventSignature, InFlight>, s: EventSignature, claim: Claim)
    requires s !in inFlight
    ensures Total(InFlightCounts(inFlight[s := InFlight(claim, false)])) == Total(InFlightCounts(inFlight)) + claim.count
  {
    var counts := InFlightCounts(inFlight);
    TotalUpdate(counts, s, claim.count);
    assert InFlightCounts(inFlight[s := InFlight(claim, false)]) == counts[s := claim.count];
  }

  lemma FlyingRemoved(inFlight: map<EventSignature, InFlight>, s: EventSignature)
    requires s in inFlight
    ensures Total(InFlightCounts(inFlight - {s})) == Total(InFlightCounts(inFlight)) - inFlight[s].claim.count
  {
    TotalRemove(InFlightCounts(inFlight), s);
    assert InFlightCounts(inFlight - {s}) == InFlightCounts(inFlight) - {s};
  }

  lemma UndoConserves(config: LimiterConfig, w: World, s: EventSignature)
    requires Inv(config, w) && LedgersValid(w) && Enabled(config, w, UndoClaim(s)) && Conserved(w)
    requires LedgersValid(Do(config, w, UndoClaim(s)))
    ensures Conserved(Do(config, w, UndoClaim(s)))
  {
    var w' := Do(config, w, UndoClaim(s));
    UndoHasEffect(config, w, s);
    OneCounterPending(w, s, w'.core.store[s].counter, w');
    FlyingRemoved(w.inFlight, s);
    assert ExactlyOnce(config, w, s);
    if w.inFlight[s].orphan {
      UndoOfOrphan(config, w, s);
    } else {
      RollbackKeepsAccount(w.core.store[s].counter, Delivered(w, s), w.inFlight[s].claim, config.minCount);
    }
  }

  /** Counters stay; what was in flight is delivered, lost, or still in flight. */
  lemma BatchStepConserves(w: World, w': World)
    requires LedgersValid(w) && LedgersValid(w') && Conserved(w) && w'.core == w.core && w'.checked == w.checked
    requires w'.delivered + w'.lost + Total(InFlightCounts(w'.inFlight))
          == w.delivered + w.lost + Total(InFlightCounts(w.inFlight))
    ensures Conserved(w')
  {
    assert PendingCounts(w') == PendingCounts(w);
  }

  lemma OtherStepsConserve(config: LimiterConfig, w: World, step: Step)
    requires LedgersValid(w) && Enabled(config, w, step) && Conserved(w)
    requires !step.CheckEvent? && !step.Visit? && !step.UndoClaim?
    requires LedgersValid(Do(config, w, step))
    ensures Conserved(Do(config, w, step))
  {
    assert Total(InFlightCounts(map[])) == 0 by {
      assert InFlightCounts(map[]) == map[];
    }
    BatchStepConserves(w, Do(config, w, step));
  }

  lemma StepConserves(config: LimiterConfig, w: World, step: Step)
    requires Inv(config, w) && LedgersValid(w) && Enabled(config, w, step) && Conserved(w)
    requires LedgersValid(Do(config, w, step))
    ensures Conserved(Do(config, w, step))
  {
    match step {
      case CheckEvent(e) =>
        CheckHasEffect(config, w, e);
        CheckConserves(config, w, e, Consulted(config, w.core, e), Check(config, w.core, e).1 == Suppress,
                       Do(config, w, step));
      case Visit(s) => VisitConserves(config, w, s);
      case UndoClaim(s) => UndoConserves(config, w, s);
      case _ => OtherStepsConserve(config, w, step);
    }
  }

  /**
   End-to-end conservation: in every reachable state the two metrics add up to the events checked, and every
   suppressed event is delivered, in flight, pending in a resident counter, or was lost to an eviction.
  */
  lemma {:induction false} Conservation(config: LimiterConfig, ws: seq<World>, steps: seq<Step>, n: nat)
    requires IsRun(config, ws, steps) && n < |ws|
    ensures LedgersValid(ws[n]) && Conserved(ws[n])
  {
    InvHolds(config, ws, steps, n);
    InvImpliesLedgersValid(config, ws[n]);
    if n == 0 {
      assert PendingCounts(START) == map[] && InFlightCounts(START.inFlight) == map[];
    } else {
      Conservation(config, ws, steps, n - 1);
      InvHolds(config, ws, steps, n - 1);
      StepConserves(config, ws[n - 1], steps[n - 1]);
    }
  }

  ghost predicate NoEvictions(steps: seq<Step>) {
    forall i | 0 <= i < |steps| :: steps[i].CheckEvent? ==> steps[i].event.victim.None?
  }

  /** Without evictions nothing is ever lost, whatever emissions panic. */
  lemma {:induction false} NothingLostWithoutEviction(config: LimiterConfig, ws: seq<World>, steps: seq<Step>, n: nat)
    requires IsRun(config, ws, steps) && n < |ws| && NoEvictions(steps)
    ensures ws[n].lost == 0 && forall s | s in ws[n].inFlight :: !ws[n].inFlight[s].orphan
  {
    if n > 0 {
      NothingLostWithoutEviction(config, ws, steps, n - 1);
      if steps[n - 1].FinishRollback? {
        assert ws[n - 1].inFlight == map[];
        assert InFlightCounts(ws[n - 1].inFlight) == map[];
      }
    }
  }

  /** A rollback aimed at a counter recreated after eviction changes no state at all. */
  lemma OrphanRollbackIsHarmless(config: LimiterConfig, ws: seq<World>, steps: seq<Step>, n: nat, s: EventSignature)
    requires IsRun(config, ws, steps) && n < |ws| && Enabled(config, ws[n], UndoClaim(s)) && ws[n].inFlight[s].orphan
    ensures LedgersValid(ws[n]) && Do(config, ws[n], UndoClaim(s)).core == ws[n].core
  {
    InvHolds(config, ws, steps, n);
    InvImpliesLedgersValid(config, ws[n]);
    UndoKeepsInv(config, ws[n], s);
  }
}

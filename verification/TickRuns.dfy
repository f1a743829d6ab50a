/**
 The emitter's tick, as written, is a run of the step machine: an undisturbed tick of module Emitter and the
 steps of module Throttle end in the same store.
*/
module TickRuns {
  import opened Wrappers
  import opened Collections
  import opened SuppressionCounters
  import opened LedgerTheory
  import opened Storage
  import opened Throttle
  import opened ThrottleTheory
  import opened Limiter
  import opened Emitter

  type Entries = Emitter.Entries

  /** Where the steps lead, if each is enabled in its turn. */
  ghost function Lead(config: LimiterConfig, w: World, steps: seq<Throttle.Step>): Option<World> {
    if steps == [] then Some(w)
    else
      match Lead(config, w, steps[..|steps| - 1])
      case None => None
      case Some(mid) =>
        var last := steps[|steps| - 1];
        if LedgersValid(mid) && Enabled(config, mid, last) then Some(Do(config, mid, last)) else None
  }

  lemma LeadSnoc(config: LimiterConfig, w: World, steps: seq<Throttle.Step>, mid: World, step: Throttle.Step)
    requires Lead(config, w, steps) == Some(mid) && LedgersValid(mid) && Enabled(config, mid, step)
    ensures Lead(config, w, steps + [step]) == Some(Do(config, mid, step))
  {
    assert (steps + [step])[..|steps|] == steps;
  }

  /** An idle world over the given entries. */
  ghost predicate Holds(w: World, entries: Entries) {
    w.phase == Idle && w.inFlight == map[] && w.core.store == Values(entries) && CountersValid(entries)
  }

  ghost function ClaimOf(entries: Entries, s: EventSignature, minCount: nat): Option<Claim>
    requires s in entries && entries[s].value.counter.Valid()
  {
    entries[s].value.counter.ClaimUnreported(minCount).1
  }

  /** The claims taken from the entries in `visited`. */
  ghost function Taken(entries: Entries, visited: set<EventSignature>, minCount: nat): map<EventSignature, InFlight>
    requires CountersValid(entries)
  {
    map s | s in entries && s in visited && ClaimOf(entries, s, minCount).Some? ::
      InFlight(ClaimOf(entries, s, minCount).value, false)
  }

  /** The world when the entries in `visited` have been claimed from and those in `undone` rolled back. */
  ghost function Midway(w: World, entries: Entries, visited: set<EventSignature>, undone: set<EventSignature>,
                        phase: Phase, minCount: nat): World
    requires CountersValid(entries)
  {
    w.(core := w.core.(store := map s | s in entries ::
                         if s in visited && s !in undone then Claimed(entries[s], minCount).value else entries[s].value),
       phase := phase,
       inFlight := Taken(entries, visited - undone, minCount))
  }

  lemma MidwayIsValid(w: World, entries: Entries, visited: set<EventSignature>, undone: set<EventSignature>,
                      phase: Phase, minCount: nat)
    requires CountersValid(entries)
    ensures LedgersValid(Midway(w, entries, visited, undone, phase, minCount))
  {
  }

  /** The world when the scan has claimed from the entries in `visited` and the rest are due. */
  ghost function Scanned(w: World, entries: Entries, visited: set<EventSignature>, minCount: nat): World
    requires CountersValid(entries)
  {
    Midway(w, entries, visited, {}, Collecting(visited, entries.Keys - visited), minCount)
  }

  lemma VisitAdvances(config: LimiterConfig, w: World, entries: Entries, visited: set<EventSignature>,
                      s: EventSignature)
    requires CountersValid(entries) && s in entries && s !in visited
    ensures var mid := Scanned(w, entries, visited, config.minCount);
            && LedgersValid(mid) && Enabled(config, mid, Visit(s))
            && Do(config, mid, Visit(s)) == Scanned(w, entries, visited + {s}, config.minCount)
  {
    var mid := Scanned(w, entries, visited, config.minCount);
    MidwayIsValid(w, entries, visited, {}, mid.phase, config.minCount);
    var next := Scanned(w, entries, visited + {s}, config.minCount);
    var done := Do(config, mid, Visit(s));
    assert done.phase.due == entries.Keys - (visited + {s});
    assert done.core.store == next.core.store;
    assert done.inFlight == next.inFlight;
  }

  lemma StartIsARun(config: LimiterConfig, w: World, entries: Entries)
    requires Holds(w, entries)
    ensures Lead(config, w, [StartCollecting]) == Some(Scanned(w, entries, {}, config.minCount))
  {
    LeadSnoc(config, w, [], w, StartCollecting);
    assert [] + [StartCollecting] == [StartCollecting];
    var mid := Scanned(w, entries, {}, config.minCount);
    assert mid.core.store == w.core.store && mid.inFlight == map[] && mid.phase.due == w.core.store.Keys;
  }

  lemma {:induction false} CollectingIsARun(config: LimiterConfig, w: World, entries: Entries,
                                            order: seq<EventSignature>, n: nat) returns (steps: seq<Throttle.Step>)
    requires Holds(w, entries) && Listing(order, entries.Keys) && n <= |order|
    ensures Lead(config, w, steps) == Some(Scanned(w, entries, Elements(order[..n]), config.minCount))
  {
    if n == 0 {
      steps := [StartCollecting];
      StartIsARun(config, w, entries);
      assert Elements(order[..0]) == {};
    } else {
      var (s, visited) := (order[n - 1], Elements(order[..n - 1]));
      steps := CollectingIsARun(config, w, entries, order, n - 1);
      ListingIsDistinct(order, entries.Keys, n - 1);
      assert Elements(order[..n]) == visited + {s};
      VisitAdvances(config, w, entries, visited, s);
      LeadSnoc(config, w, steps, Scanned(w, entries, visited, config.minCount), Visit(s));
      steps := steps + [Visit(s)];
    }
  }

  lemma UndoAdvances(config: LimiterConfig, w: World, entries: Entries, visited: set<EventSignature>,
                     undone: set<EventSignature>, s: EventSignature)
    requires CountersValid(entries) && s in entries && s in visited && s !in undone
    requires ClaimOf(entries, s, config.minCount).Some?
    ensures var mid := Midway(w, entries, visited, undone, RollingBack, config.minCount);
            && LedgersValid(mid) && Enabled(config, mid, UndoClaim(s))
            && Do(config, mid, UndoClaim(s))
               == Midway(w, entries, visited, undone + {s}, RollingBack, config.minCount)
  {
    var mid := Midway(w, entries, visited, undone, RollingBack, config.minCount);
    MidwayIsValid(w, entries, visited, undone, RollingBack, config.minCount);
    RollbackForgetsClaim(entries[s].value.counter, config.minCount, []);
    var next := Midway(w, entries, visited, undone + {s}, RollingBack, config.minCount);
    var done := Do(config, mid, UndoClaim(s));
    assert done.core.store == next.core.store;
    assert done.inFlight == next.inFlight;
  }

  /** One entry of the rollback's scan: its claim is undone if there is one. */
  lemma RollBackEntry(config: LimiterConfig, w: World, entries: Entries, undone: set<EventSignature>,
                      before: seq<Throttle.Step>, s: EventSignature) returns (steps: seq<Throttle.Step>)
    requires CountersValid(entries) && s in entries && s !in undone
    requires Lead(config, w, before) == Some(Midway(w, entries, entries.Keys, undone, RollingBack, config.minCount))
    ensures Lead(config, w, steps)
         == Some(Midway(w, entries, entries.Keys, undone + {s}, RollingBack, config.minCount))
  {
    var mid := Midway(w, entries, entries.Keys, undone, RollingBack, config.minCount);
    if ClaimOf(entries, s, config.minCount).Some? {
      UndoAdvances(config, w, entries, entries.Keys, undone, s);
      LeadSnoc(config, w, before, mid, UndoClaim(s));
      steps := before + [UndoClaim(s)];
    } else {
      steps := before;
      var next := Midway(w, entries, entries.Keys, undone + {s}, RollingBack, config.minCount);
      assert mid.core.store == next.core.store;
      assert mid.inFlight == next.inFlight;
    }
  }

  lemma {:induction false} RollingBackIsARun(config: LimiterConfig, w: World, entries: Entries,
                                             before: seq<Throttle.Step>, order: seq<EventSignature>, n: nat)
    returns (steps: seq<Throttle.Step>)
    requires CountersValid(entries) && Listing(order, entries.Keys) && n <= |order|
    requires Lead(config, w, before) == Some(Midway(w, entries, entries.Keys, {}, RollingBack, config.minCount))
    ensures Lead(config, w, steps)
         == Some(Midway(w, entries, entries.Keys, Elements(order[..n]), RollingBack, config.minCount))
  {
    if n == 0 {
      steps := before;
      assert Elements(order[..0]) == {};
    } else {
      steps := RollingBackIsARun(config, w, entries, before, order, n - 1);
      ListingIsDistinct(order, entries.Keys, n - 1);
      assert Elements(order[..n]) == Elements(order[..n - 1]) + {order[n - 1]};
      steps := RollBackEntry(config, w, entries, Elements(order[..n - 1]), steps, order[n - 1]);
    }
  }

  lemma AllVisited(w: World, entries: Entries, order: seq<EventSignature>, phase: Phase, minCount: nat)
    requires CountersValid(entries) && Listing(order, entries.Keys)
    ensures Midway(w, entries, entries.Keys, {}, phase, minCount).core.store
         == Values(ClaimedUpTo(entries, order, minCount))
    ensures CountersValid(ClaimedUpTo(entries, order, minCount))
  {
  }

  lemma AllUndone(w: World, entries: Entries, minCount: nat)
    requires Holds(w, entries)
    ensures Midway(w, entries, entries.Keys, entries.Keys, RollingBack, minCount) == w.(phase := RollingBack)
  {
    var back := Midway(w, entries, entries.Keys, entries.Keys, RollingBack, minCount);
    assert back.inFlight == map[] && back.core.store == w.core.store;
  }

  lemma FinishCollectingIsARun(config: LimiterConfig, w: World, entries: Entries, order: seq<EventSignature>)
    returns (steps: seq<Throttle.Step>)
    requires Holds(w, entries) && Listing(order, entries.Keys)
    ensures var mid := Midway(w, entries, entries.Keys, {}, Emitting, config.minCount);
            Lead(config, w, steps) == Some(if mid.inFlight == map[] then mid.(phase := Idle) else mid)
  {
    steps := CollectingIsARun(config, w, entries, order, |order|);
    assert order[..|order|] == order;
    var all := Scanned(w, entries, entries.Keys, config.minCount);
    MidwayIsValid(w, entries, entries.Keys, {}, all.phase, config.minCount);
    LeadSnoc(config, w, steps, all, FinishCollecting);
    steps := steps + [FinishCollecting];
  }

  lemma TakenSnoc(entries: Entries, visited: set<EventSignature>, s: EventSignature, minCount: nat)
    requires CountersValid(entries) && s in entries && s !in visited
    ensures var before := InFlightCounts(Taken(entries, visited, minCount));
            var claim := ClaimOf(entries, s, minCount);
            && s !in before
            && InFlightCounts(Taken(entries, visited + {s}, minCount))
               == if claim.Some? then before[s := claim.value.count] else before
  {
  }

  lemma TakenTotalSnoc(entries: Entries, front: seq<EventSignature>, s: EventSignature, minCount: nat)
    requires CountersValid(entries) && s in entries && s !in front && forall t | t in front :: t in entries
    ensures Total(InFlightCounts(Taken(entries, Elements(front + [s]), minCount)))
         == Total(InFlightCounts(Taken(entries, Elements(front), minCount)))
            + match ClaimOf(entries, s, minCount) case None => 0 case Some(claim) => claim.count
  {
    assert Elements(front + [s]) == Elements(front) + {s};
    TakenSnoc(entries, Elements(front), s, minCount);
    var before := InFlightCounts(Taken(entries, Elements(front), minCount));
    TotalUpdate(before, s, match ClaimOf(entries, s, minCount) case None => 0 case Some(claim) => claim.count);
  }

  /** What is in flight when the scan is over counts what the batch reports. */
  lemma {:induction false} TakenTotal(entries: Entries, order: seq<EventSignature>, minCount: nat, n: nat)
    requires CountersValid(entries) && Listing(order, entries.Keys) && n <= |order|
    ensures Total(InFlightCounts(Taken(entries, Elements(order[..n]), minCount)))
         == BatchTotal(Batch(entries, order[..n], minCount))
  {
    if n == 0 {
      assert InFlightCounts(Taken(entries, Elements(order[..n]), minCount)) == map[];
    } else {
      TakenTotal(entries, order, minCount, n - 1);
      ListingIsDistinct(order, entries.Keys, n - 1);
      assert order[..n] == order[..n - 1] + [order[n - 1]];
      TakenTotalSnoc(entries, order[..n - 1], order[n - 1], minCount);
      BatchTotalSnoc(entries, order[..n - 1], order[n - 1], minCount);
    }
  }

  lemma AllTakenTotal(entries: Entries, order: seq<EventSignature>, minCount: nat)
    requires CountersValid(entries) && Listing(order, entries.Keys)
    ensures Total(InFlightCounts(Taken(entries, entries.Keys, minCount))) == BatchTotal(Batch(entries, order, minCount))
  {
    assert order[..|order|] == order;
    TakenTotal(entries, order, minCount, |order|);
  }

  lemma BatchTotalSnoc(entries: Entries, order: seq<EventSignature>, s: EventSignature, minCount: nat)
    requires CountersValid(entries) && s in entries && forall t | t in order :: t in entries
    ensures BatchTotal(Batch(entries, order + [s], minCount))
         == BatchTotal(Batch(entries, order, minCount))
            + match ClaimOf(entries, s, minCount) case None => 0 case Some(claim) => claim.count
  {
    BatchSnoc(entries, order, s, minCount);
    var before := Batch(entries, order, minCount);
    assert before + [] == before;
  }

  /** Each signature's slices have gained its claim. */
  ghost predicate SlicesGain(w: World, w': World, entries: Entries, minCount: nat)
    requires CountersValid(entries)
  {
    forall s | s in entries ::
      Delivered(w', s)
      == Delivered(w, s) + match ClaimOf(entries, s, minCount) case None => [] case Some(claim) => [claim]
  }

  /** An idle world after a tick that handed its batch over. */
  ghost predicate HandedOver(w: World, w': World, entries: Entries, order: seq<EventSignature>, minCount: nat)
    requires CountersValid(entries) && forall s | s in order :: s in entries
  {
    && w'.core == w.core.(store := Values(ClaimedUpTo(entries, order, minCount)))
    && w'.delivered == w.delivered + SummaryTotal(Summaries(entries, Batch(entries, order, minCount)))
    && w'.lost == w.lost && w'.checked == w.checked
    && SlicesGain(w, w', entries, minCount)
  }

  /**
   A tick whose emission returns, or that has nothing to emit, ends in the store `Tick` promises; the machine's
   delivered total grows by what the summaries report, and each signature's slices by its claim.
  */
  lemma EmittingTickIsARun(config: LimiterConfig, w: World, entries: Entries, order: seq<EventSignature>)
    returns (steps: seq<Throttle.Step>, w': World)
    requires Holds(w, entries) && Listing(order, entries.Keys)
    ensures Lead(config, w, steps) == Some(w') && Holds(w', ClaimedUpTo(entries, order, config.minCount))
    ensures HandedOver(w, w', entries, order, config.minCount)
  {
    steps := FinishCollectingIsARun(config, w, entries, order);
    var mid := Midway(w, entries, entries.Keys, {}, Emitting, config.minCount);
    AllVisited(w, entries, order, Emitting, config.minCount);
    EmitHandsOver(config, w, entries, order);
    w' := AfterEmit(config, mid);
    if mid.inFlight != map[] {
      LeadSnoc(config, w, steps, mid, EmitReturns);
      steps := steps + [EmitReturns];
    }
  }

  /** A returning emission delivers what is in flight. */
  lemma EmitReturnsDelivers(config: LimiterConfig, mid: World)
    requires LedgersValid(mid) && mid.phase == Emitting
    requires forall s | s in mid.inFlight :: !mid.inFlight[s].orphan
    ensures var w' := Do(config, mid, EmitReturns);
            && w'.core == mid.core && w'.lost == mid.lost && w'.checked == mid.checked
            && w'.delivered == mid.delivered + Total(InFlightCounts(mid.inFlight))
            && forall s | s in mid.core.store ::
                 Delivered(w', s) == Delivered(mid, s) + if s in mid.inFlight then [mid.inFlight[s].claim] else []
  {
  }

  /** A scan of everything has the claim of every entry in flight. */
  lemma AllTaken(w: World, entries: Entries, minCount: nat)
    requires CountersValid(entries)
    ensures var flying := Midway(w, entries, entries.Keys, {}, Emitting, minCount).inFlight;
            forall s | s in entries ::
              if s in flying then Some(flying[s].claim) == ClaimOf(entries, s, minCount) && !flying[s].orphan
              else ClaimOf(entries, s, minCount).None?
  {
  }

  /** Where the emission of that batch leads, or the end of the scan if the batch is empty. */
  ghost function AfterEmit(config: LimiterConfig, mid: World): World
    requires LedgersValid(mid) && mid.phase == Emitting
  {
    if mid.inFlight == map[] then mid.(phase := Idle) else Do(config, mid, EmitReturns)
  }

  lemma EmitGainsSlices(config: LimiterConfig, w: World, entries: Entries)
    requires CountersValid(entries)
    ensures var mid := Midway(w, entries, entries.Keys, {}, Emitting, config.minCount);
            LedgersValid(mid) && SlicesGain(w, AfterEmit(config, mid), entries, config.minCount)
  {
    var mid := Midway(w, entries, entries.Keys, {}, Emitting, config.minCount);
    MidwayIsValid(w, entries, entries.Keys, {}, Emitting, config.minCount);
    AllTaken(w, entries, config.minCount);
    EmitReturnsDelivers(config, mid);
    assert mid.slices == w.slices && mid.core.store.Keys == entries.Keys;
  }

  lemma EmitGainsTotal(config: LimiterConfig, w: World, entries: Entries, order: seq<EventSignature>)
    requires CountersValid(entries) && Listing(order, entries.Keys)
    ensures var mid := Midway(w, entries, entries.Keys, {}, Emitting, config.minCount);
            && LedgersValid(mid)
            && var w' := AfterEmit(config, mid);
               && w'.core == mid.core && w'.lost == w.lost && w'.checked == w.checked
               && w'.delivered == w.delivered + BatchTotal(Batch(entries, order, config.minCount))
  {
    var mid := Midway(w, entries, entries.Keys, {}, Emitting, config.minCount);
    MidwayIsValid(w, entries, entries.Keys, {}, Emitting, config.minCount);
    AllTakenTotal(entries, order, config.minCount);
    assert mid.inFlight == Taken(entries, entries.Keys, config.minCount);
    EmptyTotal(mid.inFlight);
    EmitReturnsDelivers(config, mid);
  }

  lemma EmptyTotal(inFlight: map<EventSignature, InFlight>)
    ensures inFlight == map[] ==> Total(InFlightCounts(inFlight)) == 0
  {
    assert InFlightCounts(map[]) == map[];
  }

  lemma EmitHandsOver(config: LimiterConfig, w: World, entries: Entries, order: seq<EventSignature>)
    requires CountersValid(entries) && Listing(order, entries.Keys)
    ensures var mid := Midway(w, entries, entries.Keys, {}, Emitting, config.minCount);
            LedgersValid(mid) && HandedOver(w, AfterEmit(config, mid), entries, order, config.minCount)
  {
    EmitGainsSlices(config, w, entries);
    EmitGainsTotal(config, w, entries, order);
    SummariesTotal(entries, Batch(entries, order, config.minCount));
    AllVisited(w, entries, order, Emitting, config.minCount);
  }

  /** The state from which a batch that is not empty is emitted, and the panic that starts the rollback. */
  lemma PanicIsARun(config: LimiterConfig, w: World, entries: Entries, order: seq<EventSignature>, s: EventSignature)
    returns (steps: seq<Throttle.Step>)
    requires Holds(w, entries) && Listing(order, entries.Keys)
    requires s in entries && ClaimOf(entries, s, config.minCount).Some?
    ensures Lead(config, w, steps) == Some(Midway(w, entries, entries.Keys, {}, RollingBack, config.minCount))
  {
    steps := FinishCollectingIsARun(config, w, entries, order);
    var mid := Midway(w, entries, entries.Keys, {}, Emitting, config.minCount);
    assert s in mid.inFlight;
    MidwayIsValid(w, entries, entries.Keys, {}, Emitting, config.minCount);
    LeadSnoc(config, w, steps, mid, EmitPanics);
    steps := steps + [EmitPanics];
  }

  /** A tick whose emission panics on a batch that is not empty: the machine, too, is back where it was. */
  lemma PanickingTickIsARun(config: LimiterConfig, w: World, entries: Entries, order: seq<EventSignature>,
                            rollbackOrder: seq<EventSignature>, s: EventSignature)
    returns (steps: seq<Throttle.Step>)
    requires Holds(w, entries) && Listing(order, entries.Keys) && Listing(rollbackOrder, entries.Keys)
    requires s in entries && ClaimOf(entries, s, config.minCount).Some?
    ensures Lead(config, w, steps) == Some(w)
  {
    steps := PanicIsARun(config, w, entries, order, s);
    steps := RollingBackIsARun(config, w, entries, steps, rollbackOrder, |rollbackOrder|);
    assert rollbackOrder[..|rollbackOrder|] == rollbackOrder;
    AllUndone(w, entries, config.minCount);
    FinishRollbackWhenEmpty(config, w, entries, steps);
    steps := steps + [FinishRollback];
  }

  lemma FinishRollbackWhenEmpty(config: LimiterConfig, w: World, entries: Entries, steps: seq<Throttle.Step>)
    requires Holds(w, entries) && Lead(config, w, steps) == Some(w.(phase := RollingBack))
    ensures Lead(config, w, steps + [FinishRollback]) == Some(w)
  {
    var back := w.(phase := RollingBack);
    assert LedgersValid(back);
    LeadSnoc(config, w, steps, back, FinishRollback);
    assert InFlightCounts(back.inFlight) == map[];
  }
}

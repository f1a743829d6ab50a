/**
 One tick of the summary emitter when no other thread interferes: collect a claim from every entry that has
 enough to report, emit, and roll everything back if the emission panics.
*/
module Emitter {
  import opened Wrappers
  import opened Machine
  import opened SuppressionCounters
  import opened LedgerTheory
  import opened Storage
  import opened Throttle

  type Entries = map<EventSignature, Entry<EventState>>

  datatype ClaimedSummary = ClaimedSummary(signature: EventSignature, claim: Claim)

  datatype SuppressionSummary = SuppressionSummary(
    signature: EventSignature,
    count: nat,
    firstSuppressed: Instant,
    lastSuppressed: Instant,
    duration: nat,
    metadata: Option<Metadata>
  )

  function SummaryOf(claimed: ClaimedSummary, metadata: Option<Metadata>): SuppressionSummary {
    var c := claimed.claim;
    SuppressionSummary(claimed.signature, c.count, c.firstSuppressed, c.lastSuppressed, c.duration, metadata)
  }

  ghost predicate CountersValid(entries: Entries) {
    forall s | s in entries :: entries[s].value.counter.Valid()
  }

  function WithCounter(entry: Entry<EventState>, counter: Ledger): Entry<EventState> {
    entry.(value := entry.value.(counter := counter))
  }

  /** The entry once whatever it has to report is claimed. */
  ghost function Claimed(entry: Entry<EventState>, minCount: nat): Entry<EventState>
    requires entry.value.counter.Valid()
  {
    WithCounter(entry, entry.value.counter.ClaimUnreported(minCount).0)
  }

  /** The entries once a scan has claimed from those listed. */
  ghost function ClaimedUpTo(entries: Entries, visited: seq<EventSignature>, minCount: nat): (r: Entries)
    requires CountersValid(entries)
    ensures r.Keys == entries.Keys
  {
    map s | s in entries :: if s in visited then Claimed(entries[s], minCount) else entries[s]
  }

  lemma ClaimedUpToSnoc(entries: Entries, visited: seq<EventSignature>, s: EventSignature, minCount: nat)
    requires CountersValid(entries) && s in entries && s !in visited
    ensures ClaimedUpTo(entries, visited + [s], minCount)
         == ClaimedUpTo(entries, visited, minCount)[s := Claimed(entries[s], minCount)]
    ensures ClaimedUpTo(entries, visited, minCount)[s] == entries[s]
  {
  }

  /** The claims of a scan in the given order. */
  ghost function Batch(entries: Entries, order: seq<EventSignature>, minCount: nat): (r: seq<ClaimedSummary>)
    requires CountersValid(entries) && forall s | s in order :: s in entries
    ensures forall i | 0 <= i < |r| :: r[i].signature in entries
  {
    if order == [] then []
    else
      var s := order[|order| - 1];
      var claim := entries[s].value.counter.ClaimUnreported(minCount).1;
      Batch(entries, order[..|order| - 1], minCount)
      + if claim.Some? then [ClaimedSummary(s, claim.value)] else []
  }

  lemma BatchSnoc(entries: Entries, order: seq<EventSignature>, s: EventSignature, minCount: nat)
    requires CountersValid(entries) && s in entries && forall t | t in order :: t in entries
    ensures var claim := entries[s].value.counter.ClaimUnreported(minCount).1;
            Batch(entries, order + [s], minCount)
            == Batch(entries, order, minCount) + if claim.Some? then [ClaimedSummary(s, claim.value)] else []
  {
    assert (order + [s])[..|order|] == order;
  }

  /** How many suppressions a batch reports. */
  ghost function BatchTotal(batch: seq<ClaimedSummary>): nat {
    if batch == [] then 0 else BatchTotal(batch[..|batch| - 1]) + batch[|batch| - 1].claim.count
  }

  ghost predicate InBatch(batch: seq<ClaimedSummary>, s: EventSignature) {
    exists i | 0 <= i < |batch| :: batch[i].signature == s
  }

  lemma InBatchSnoc(batch: seq<ClaimedSummary>, last: ClaimedSummary, s: EventSignature)
    ensures InBatch(batch + [last], s) <==> InBatch(batch, s) || s == last.signature
  {
    assert (batch + [last])[|batch|] == last;
    if i :| 0 <= i < |batch| && batch[i].signature == s {
      assert (batch + [last])[i] == batch[i];
    }
  }

  /** A scan reports the signatures that have enough pending and no other. */
  lemma {:induction false} BatchReportsAll(entries: Entries, order: seq<EventSignature>, minCount: nat,
                                           s: EventSignature)
    requires CountersValid(entries) && (forall t | t in order :: t in entries) && s in entries
    ensures InBatch(Batch(entries, order, minCount), s)
       <==> s in order && entries[s].value.counter.Pending() >= Max(1, minCount)
  {
    if order != [] {
      var (front, last) := (order[..|order| - 1], order[|order| - 1]);
      BatchReportsAll(entries, front, minCount, s);
      assert order == front + [last];
      BatchSnoc(entries, front, last, minCount);
      var claim := entries[last].value.counter.ClaimUnreported(minCount).1;
      if claim.Some? {
        InBatchSnoc(Batch(entries, front, minCount), ClaimedSummary(last, claim.value), s);
      } else {
        assert Batch(entries, order, minCount) == Batch(entries, front, minCount);
      }
    }
  }

  /** The claim covers everything pending at its signature, which is enough. */
  ghost predicate ClaimsPending(entries: Entries, minCount: nat, claimed: ClaimedSummary)
    requires CountersValid(entries)
  {
    && claimed.signature in entries
    && var l := entries[claimed.signature].value.counter;
       l.Pending() >= Max(1, minCount) && claimed.claim == l.Slice(l.cursor, |l.log|)
  }

  /** It reports none twice, and each with everything pending there. */
  lemma {:induction false} BatchReportsOnce(entries: Entries, order: seq<EventSignature>, minCount: nat, n: nat)
    requires CountersValid(entries) && Listing(order, entries.Keys) && n <= |order|
    ensures var batch := Batch(entries, order[..n], minCount);
            && (forall i | 0 <= i < |batch| :: ClaimsPending(entries, minCount, batch[i]))
            && (forall i, j | 0 <= i < j < |batch| :: batch[i].signature != batch[j].signature)
  {
    if n > 0 {
      var (front, last) := (order[..n - 1], order[n - 1]);
      BatchReportsOnce(entries, order, minCount, n - 1);
      ListingIsDistinct(order, entries.Keys, n - 1);
      assert order[..n] == front + [last];
      BatchSnoc(entries, front, last, minCount);
      BatchReportsAll(entries, front, minCount, last);
    }
  }

  /** The summaries of a batch, each with its entry's metadata. */
  ghost function Summaries(entries: Entries, claims: seq<ClaimedSummary>): (r: seq<SuppressionSummary>)
    requires forall i | 0 <= i < |claims| :: claims[i].signature in entries
    ensures |r| == |claims|
  {
    seq(|claims|, i requires 0 <= i < |claims| =>
      SummaryOf(claims[i], entries[claims[i].signature].value.metadata))
  }

  lemma SummariesSnoc(entries: Entries, claims: seq<ClaimedSummary>, last: ClaimedSummary)
    requires last.signature in entries && forall i | 0 <= i < |claims| :: claims[i].signature in entries
    ensures Summaries(entries, claims + [last])
         == Summaries(entries, claims) + [SummaryOf(last, entries[last.signature].value.metadata)]
  {
  }

  /** What a summary says of an entry, read off the entry: how much is pending, from when to when, and what it was. */
  ghost predicate Reports(summary: SuppressionSummary, entry: Entry<EventState>)
    requires entry.value.counter.Valid() && entry.value.counter.Pending() > 0
  {
    var l := entry.value.counter;
    && summary.count == |l.log| - l.cursor
    && summary.firstSuppressed == l.log[l.cursor]
    && summary.lastSuppressed == l.log[|l.log| - 1]
    && summary.duration == Max(0, l.log[|l.log| - 1] as int - l.log[l.cursor] as int)
    && summary.metadata == entry.value.metadata
  }

  ghost predicate Reported(summaries: seq<SuppressionSummary>, s: EventSignature) {
    exists i | 0 <= i < |summaries| :: summaries[i].signature == s
  }

  /** One truthful summary for each entry with at least max(1, minCount) pending, none twice, and no other. */
  ghost predicate AllReported(entries: Entries, minCount: nat, summaries: seq<SuppressionSummary>)
    requires CountersValid(entries)
  {
    && (forall i | 0 <= i < |summaries| ::
          && summaries[i].signature in entries
          && entries[summaries[i].signature].value.counter.Pending() >= Max(1, minCount)
          && Reports(summaries[i], entries[summaries[i].signature]))
    && (forall i, j | 0 <= i < j < |summaries| :: summaries[i].signature != summaries[j].signature)
    && (forall s | s in entries ::
          Reported(summaries, s) <==> entries[s].value.counter.Pending() >= Max(1, minCount))
  }

  lemma WholeBatch(entries: Entries, order: seq<EventSignature>, minCount: nat, batch: seq<ClaimedSummary>)
    requires CountersValid(entries) && Listing(order, entries.Keys) && batch == Batch(entries, order, minCount)
    ensures forall i | 0 <= i < |batch| :: ClaimsPending(entries, minCount, batch[i])
    ensures forall i, j | 0 <= i < j < |batch| :: batch[i].signature != batch[j].signature
  {
    assert order[..|order|] == order;
    BatchReportsOnce(entries, order, minCount, |order|);
  }

  lemma SummaryReports(entries: Entries, minCount: nat, claimed: ClaimedSummary)
    requires CountersValid(entries) && ClaimsPending(entries, minCount, claimed)
    ensures Reports(SummaryOf(claimed, entries[claimed.signature].value.metadata), entries[claimed.signature])
    ensures SummaryOf(claimed, entries[claimed.signature].value.metadata).signature == claimed.signature
  {
    OwnedIsDescribed(entries[claimed.signature].value.counter, claimed.claim);
  }

  lemma SummariesReport(entries: Entries, order: seq<EventSignature>, minCount: nat)
    requires CountersValid(entries) && Listing(order, entries.Keys)
    ensures AllReported(entries, minCount, Summaries(entries, Batch(entries, order, minCount)))
  {
    var batch := Batch(entries, order, minCount);
    var summaries := Summaries(entries, batch);
    WholeBatch(entries, order, minCount, batch);
    forall i | 0 <= i < |batch|
      ensures summaries[i].signature == batch[i].signature && ClaimsPending(entries, minCount, batch[i])
      ensures Reports(summaries[i], entries[batch[i].signature])
    {
      assert ClaimsPending(entries, minCount, batch[i]);
      SummaryReports(entries, minCount, batch[i]);
    }
    forall s | s in entries
      ensures Reported(summaries, s) <==> entries[s].value.counter.Pending() >= Max(1, minCount)
    {
      BatchReportsAll(entries, order, minCount, s);
      SameSignatures(entries, batch, s);
    }
  }

  lemma SameSignatures(entries: Entries, batch: seq<ClaimedSummary>, s: EventSignature)
    requires forall i | 0 <= i < |batch| :: batch[i].signature in entries
    ensures Reported(Summaries(entries, batch), s) <==> InBatch(batch, s)
  {
    var summaries := Summaries(entries, batch);
    assert forall i | 0 <= i < |batch| :: summaries[i].signature == batch[i].signature;
  }

  /** How many suppressions summaries speak of. */
  ghost function SummaryTotal(summaries: seq<SuppressionSummary>): nat {
    if summaries == [] then 0
    else SummaryTotal(summaries[..|summaries| - 1]) + summaries[|summaries| - 1].count
  }

  lemma {:induction false} SummariesTotal(entries: Entries, claims: seq<ClaimedSummary>)
    requires forall i | 0 <= i < |claims| :: claims[i].signature in entries
    ensures SummaryTotal(Summaries(entries, claims)) == BatchTotal(claims)
  {
    if claims != [] {
      var init := claims[..|claims| - 1];
      SummariesTotal(entries, init);
      assert Summaries(entries, claims)[..|claims| - 1] == Summaries(entries, init);
    }
  }

  /** A counter after the rollback of every claim in the list that carries its signature. */
  ghost function RolledBack(l: Ledger, claims: seq<ClaimedSummary>, s: EventSignature): Ledger {
    if claims == [] then l
    else
      var before := RolledBack(l, claims[..|claims| - 1], s);
      var last := claims[|claims| - 1];
      if last.signature == s then before.RollBack(last.claim).0 else before
  }

  lemma RolledBackSnoc(l: Ledger, claims: seq<ClaimedSummary>, last: ClaimedSummary, s: EventSignature)
    ensures RolledBack(l, claims + [last], s)
         == if last.signature == s then RolledBack(l, claims, s).RollBack(last.claim).0 else RolledBack(l, claims, s)
  {
    assert (claims + [last])[..|claims|] == claims;
  }

  /** Rolling a batch back undoes, for each signature, the one claim the batch holds for it. */
  lemma {:induction false} BatchRollsBackOnce(entries: Entries, order: seq<EventSignature>, minCount: nat,
                                              s: EventSignature, n: nat)
    requires CountersValid(entries) && Listing(order, entries.Keys) && n <= |order| && s in entries
    ensures var l := entries[s].value.counter;
            var claimed := l.ClaimUnreported(minCount).0;
            RolledBack(claimed, Batch(entries, order[..n], minCount), s) == if s in order[..n] then l else claimed
  {
    if n > 0 {
      var last := order[n - 1];
      BatchRollsBackOnce(entries, order, minCount, s, n - 1);
      ListingIsDistinct(order, entries.Keys, n - 1);
      assert order[..n] == order[..n - 1] + [last];
      assert order[..n][..n - 1] == order[..n - 1];
      var claim := entries[last].value.counter.ClaimUnreported(minCount).1;
      if claim.Some? {
        RolledBackSnoc(entries[s].value.counter.ClaimUnreported(minCount).0, Batch(entries, order[..n - 1], minCount),
                       ClaimedSummary(last, claim.value), s);
        if last == s {
          RollbackForgetsClaim(entries[s].value.counter, minCount, []);
        }
      } else {
        assert Batch(entries, order[..n], minCount) == Batch(entries, order[..n - 1], minCount);
      }
    }
  }

  lemma ClaimingNothingChangesNothing(entries: Entries, order: seq<EventSignature>, minCount: nat)
    requires CountersValid(entries) && Listing(order, entries.Keys) && Batch(entries, order, minCount) == []
    ensures ClaimedUpTo(entries, order, minCount) == entries
  {
    forall s | s in entries ensures ClaimedUpTo(entries, order, minCount)[s] == entries[s] {
      BatchReportsAll(entries, order, minCount, s);
    }
  }

  /** Nothing of an entry has changed but how far its counter is reported. */
  ghost predicate OnlyClaimed(before: Entry<EventState>, after: Entry<EventState>) {
    && after.lastAccessNanos == before.lastAccessNanos
    && after.value.policy == before.value.policy && after.value.metadata == before.value.metadata
    && after.value.counter.log == before.value.counter.log
    && after.value.counter.initial == before.value.counter.initial
  }

  lemma ClaimedKeepsRest(entry: Entry<EventState>, minCount: nat)
    requires entry.value.counter.Valid()
    ensures OnlyClaimed(entry, Claimed(entry, minCount))
    ensures Claimed(entry, minCount).value.counter.Valid()
    ensures Claimed(entry, minCount).value.counter.Pending() < Max(1, minCount)
  {
  }

  class SummaryEmitter {
    const storage: ShardedStorage<EventSignature, EventState>
    const minCount: nat

    constructor (storage: ShardedStorage<EventSignature, EventState>, minCount: nat)
      ensures this.storage == storage && this.minCount == minCount
    {
      this.storage := storage;
      this.minCount := minCount;
    }

    method ClaimEntry(s: EventSignature) returns (claim: Option<Claim>)
      requires s in storage.entries && storage.entries[s].value.counter.Valid()
      modifies storage`entries
      ensures storage.entries == old(storage.entries)[s := Claimed(old(storage.entries)[s], minCount)]
      ensures claim == old(storage.entries)[s].value.counter.ClaimUnreported(minCount).1
    {
      var entry := storage.entries[s];
      var (counter, claimed) := entry.value.counter.ClaimUnreported(minCount);
      storage.entries := storage.entries[s := WithCounter(entry, counter)];
      claim := claimed;
    }

    /** Claims from every entry; keys, access times, policies and tracked memory stay. */
    method CollectClaimedSummaries(order: seq<EventSignature>)
      returns (summaries: seq<SuppressionSummary>, claims: seq<ClaimedSummary>)
      requires CountersValid(storage.entries) && Listing(order, storage.entries.Keys)
      modifies storage`entries
      ensures storage.entries == ClaimedUpTo(old(storage.entries), order, minCount)
      ensures claims == Batch(old(storage.entries), order, minCount)
      ensures summaries == Summaries(old(storage.entries), claims)
      ensures AllReported(old(storage.entries), minCount, summaries)
    {
      ghost var before := storage.entries;
      summaries, claims := [], [];
      var i := 0;
      while i < |order|
        invariant 0 <= i <= |order|
        invariant storage.entries == ClaimedUpTo(before, order[..i], minCount)
        invariant claims == Batch(before, order[..i], minCount)
        invariant summaries == Summaries(before, claims)
      {
        ListingIsDistinct(order, before.Keys, i);
        assert order[..i + 1] == order[..i] + [order[i]];
        summaries, claims := VisitEntry(before, order[..i], order[i], summaries, claims);
        i := i + 1;
      }
      assert order[..i] == order;
      SummariesReport(before, order, minCount);
    }

    /** The body of the scan, at one entry. */
    method VisitEntry(ghost before: Entries, ghost visited: seq<EventSignature>, s: EventSignature,
                      summaries: seq<SuppressionSummary>, claims: seq<ClaimedSummary>)
      returns (summaries': seq<SuppressionSummary>, claims': seq<ClaimedSummary>)
      requires CountersValid(before) && s in before && s !in visited && forall t | t in visited :: t in before
      requires storage.entries == ClaimedUpTo(before, visited, minCount)
      requires claims == Batch(before, visited, minCount) && summaries == Summaries(before, claims)
      modifies storage`entries
      ensures storage.entries == ClaimedUpTo(before, visited + [s], minCount)
      ensures claims' == Batch(before, visited + [s], minCount) && summaries' == Summaries(before, claims')
    {
      ClaimedUpToSnoc(before, visited, s, minCount);
      BatchSnoc(before, visited, s, minCount);
      summaries', claims' := summaries, claims;
      var metadata := storage.entries[s].value.metadata;
      var claim := ClaimEntry(s);
      if claim.Some? {
        var claimed := ClaimedSummary(s, claim.value);
        SummariesSnoc(before, claims, claimed);
        claims' := claims + [claimed];
        summaries' := summaries + [SummaryOf(claimed, metadata)];
      }
    }

    /** The inner loop of the rollback, at one entry. */
    static method UndoMatching(l: Ledger, claims: seq<ClaimedSummary>, s: EventSignature) returns (counter: Ledger)
      ensures counter == RolledBack(l, claims, s)
    {
      counter := l;
      var j := 0;
      while j < |claims|
        invariant 0 <= j <= |claims|
        invariant counter == RolledBack(l, claims[..j], s)
      {
        assert claims[..j + 1] == claims[..j] + [claims[j]];
        RolledBackSnoc(l, claims[..j], claims[j], s);
        if claims[j].signature == s {
          counter := counter.RollBack(claims[j].claim).0;
        }
        j := j + 1;
      }
      assert claims[..j] == claims;
    }

    /** One scan; at each entry, every claim of the batch that carries its signature is undone in turn. */
    method RollbackClaimedSummaries(order: seq<EventSignature>, claims: seq<ClaimedSummary>)
      requires Listing(order, storage.entries.Keys)
      modifies storage`entries
      ensures storage.entries.Keys == old(storage.entries).Keys
      ensures forall s | s in storage.entries ::
                storage.entries[s] == WithCounter(old(storage.entries)[s],
                                                  RolledBack(old(storage.entries)[s].value.counter, claims, s))
    {
      ghost var before := storage.entries;
      if claims == [] {
        return;
      }
      var i := 0;
      while i < |order|
        invariant 0 <= i <= |order|
        invariant storage.entries.Keys == before.Keys
        invariant forall s | s in before ::
                    storage.entries[s] == if s in order[..i]
                                          then WithCounter(before[s], RolledBack(before[s].value.counter, claims, s))
                                          else before[s]
      {
        var s := order[i];
        ListingIsDistinct(order, before.Keys, i);
        assert order[..i + 1] == order[..i] + [s];
        var counter := UndoMatching(storage.entries[s].value.counter, claims, s);
        storage.entries := storage.entries[s := WithCounter(storage.entries[s], counter)];
        i := i + 1;
      }
      assert order[..i] == order;
    }

    /** `panics` says whether the user's function panics on a batch that is not empty. */
    method EmitClaimedSummaries(order: seq<EventSignature>, summaries: seq<SuppressionSummary>,
                                claims: seq<ClaimedSummary>, panics: bool)
      returns (emitted: bool)
      requires Listing(order, storage.entries.Keys) && |summaries| == |claims|
      modifies storage`entries
      ensures emitted <==> claims == [] || !panics
      ensures emitted ==> storage.entries == old(storage.entries)
      ensures !emitted ==>
                && storage.entries.Keys == old(storage.entries).Keys
                && forall s | s in storage.entries ::
                     storage.entries[s] == WithCounter(old(storage.entries)[s],
                                                       RolledBack(old(storage.entries)[s].value.counter, claims, s))
    {
      if summaries == [] {
        return true;
      }
      if panics {
        RollbackClaimedSummaries(order, claims);
        emitted := false;
      } else {
        emitted := true;
      }
    }

    /**
     A tick. If the emission panics the store is exactly as it was, so the whole batch is pending again;
     otherwise everything worth reporting was handed over and none of it is left.
    */
    method Tick(order: seq<EventSignature>, rollbackOrder: seq<EventSignature>, panics: bool)
      returns (emitted: bool, summaries: seq<SuppressionSummary>)
      requires CountersValid(storage.entries)
      requires Listing(order, storage.entries.Keys) && Listing(rollbackOrder, storage.entries.Keys)
      modifies storage`entries
      ensures panics ==> storage.entries == old(storage.entries)
      ensures emitted ==>
                && storage.entries.Keys == old(storage.entries).Keys
                && (forall s | s in storage.entries :: storage.entries[s] == Claimed(old(storage.entries)[s], minCount))
      ensures emitted ==> forall s | s in storage.entries ::
                            storage.entries[s].value.counter.Valid()
                            && storage.entries[s].value.counter.Pending() < Max(1, minCount)
      ensures summaries == Summaries(old(storage.entries), Batch(old(storage.entries), order, minCount))
      ensures AllReported(old(storage.entries), minCount, summaries)
      ensures emitted ==> forall s | s in storage.entries :: OnlyClaimed(old(storage.entries)[s], storage.entries[s])
      ensures emitted <==> summaries == [] || !panics
    {
      ghost var before := storage.entries;
      var claims;
      summaries, claims := CollectClaimedSummaries(order);
      emitted := EmitClaimedSummaries(rollbackOrder, summaries, claims, panics);
      if !emitted {
        forall s | s in before ensures storage.entries[s] == before[s] {
          BatchRollsBackOnce(before, order, minCount, s, |order|);
          assert order[..|order|] == order;
        }
        assert storage.entries == before;
      } else {
        if panics {
          ClaimingNothingChangesNothing(before, order, minCount);
        }
        forall s | s in before
          ensures storage.entries[s] == Claimed(before[s], minCount) && OnlyClaimed(before[s], storage.entries[s])
          ensures storage.entries[s].value.counter.Valid()
          ensures storage.entries[s].value.counter.Pending() < Max(1, minCount)
        {
          ClaimedKeepsRest(before[s], minCount);
        }
      }
    }

    /** The shutdown branch of the loop: one last tick if asked for. */
    method Shutdown(emitFinal: bool, order: seq<EventSignature>, rollbackOrder: seq<EventSignature>, panics: bool)
      returns (emitted: bool, summaries: seq<SuppressionSummary>)
      requires CountersValid(storage.entries)
      requires Listing(order, storage.entries.Keys) && Listing(rollbackOrder, storage.entries.Keys)
      modifies storage`entries
      ensures summaries == if emitFinal then Summaries(old(storage.entries),
                                                       Batch(old(storage.entries), order, minCount)) else []
      ensures emitFinal ==> AllReported(old(storage.entries), minCount, summaries)
      ensures emitted <==> emitFinal && (summaries == [] || !panics)
      ensures !emitFinal || panics ==> storage.entries == old(storage.entries)
      ensures emitFinal && !panics ==>
                && storage.entries.Keys == old(storage.entries).Keys
                && forall s | s in storage.entries :: storage.entries[s] == Claimed(old(storage.entries)[s], minCount)
      ensures emitFinal && !panics ==>
                forall s | s in storage.entries ::
                  storage.entries[s].value.counter.Valid()
                  && storage.entries[s].value.counter.Pending() < Max(1, minCount)
    {
      emitted, summaries := false, [];
      if emitFinal {
        emitted, summaries := Tick(order, rollbackOrder, panics);
      }
    }
  }
}

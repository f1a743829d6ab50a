/**
 The suppression counter of src/domain/summary.rs.

 A counter is a log of suppression timestamps and a cursor, the number of log entries already claimed for a
 summary; `Ledger` is that pair. The class keeps the six fields of the source and is proved to hold, at all
 times, the values the ledger dictates. Every method of the source runs under the counter's mutex, so each is
 one step.
*/
module SuppressionCounters {
  import opened Wrappers
  import opened Machine

  /** The source's `ClaimedSuppressions`, field by field. */
  datatype Claim = Claim(
    previousReportedCount: nat,
    previousLastReported: Instant,
    count: nat,
    totalCount: nat,
    firstSuppressed: Instant,
    lastSuppressed: Instant,
    duration: nat
  )

  /** Timestamps in the log are as stored: nanoseconds clamped to `u64`. */
  datatype Ledger = Ledger(initial: u64, log: seq<u64>, cursor: nat)
  {
    ghost predicate Valid() {
      cursor <= |log|
    }

    /** Timestamp of the entry just before position `n`, or the creation time. */
    function StampBefore(n: nat): u64
      requires n <= |log|
    {
      if n == 0 then initial else log[n - 1]
    }

    /** Timestamp of the first unclaimed entry; when there is none, of the last claimed one. */
    function FirstUnreported(): u64
      requires cursor <= |log|
    {
      if cursor < |log| then log[cursor] else StampBefore(cursor)
    }

    function Pending(): nat
      requires cursor <= |log|
    {
      |log| - cursor
    }

    /** The claim that describes the slice `[lo, hi)` of the log. */
    function Slice(lo: nat, hi: nat): Claim
      requires lo < hi <= |log|
    {
      Claim(lo, StampBefore(lo), hi - lo, hi, log[lo], log[hi - 1], SaturatingSince(log[hi - 1], log[lo]))
    }

    /** `claim` was made by this counter since it was created or reset. */
    ghost predicate Owns(claim: Claim) {
      && claim.previousReportedCount < claim.totalCount <= |log|
      && claim == Slice(claim.previousReportedCount, claim.totalCount)
    }

    function Record(now: Instant): Ledger {
      this.(log := log + [ToNanos(now)])
    }

    function ClaimUnreported(minCount: nat): (r: (Ledger, Option<Claim>))
      requires cursor <= |log|
    {
      if Pending() < Max(minCount, 1) then (this, None)
      else (this.(cursor := |log|), Some(Slice(cursor, |log|)))
    }

    function RollBack(claim: Claim): (Ledger, bool) {
      if cursor < claim.totalCount then (this, cursor == claim.previousReportedCount)
      else (this.(cursor := claim.previousReportedCount), true)
    }
  }

  function NewLedger(now: Instant): Ledger {
    Ledger(ToNanos(now), [], 0)
  }

  class SuppressionCounter {
    var suppressedCount: nat
    var reportedCount: nat
    var firstSuppressedNanos: u64
    var lastSuppressedNanos: u64
    var lastReportedNanos: u64
    var firstUnreportedNanos: u64
    ghost var ledger: Ledger

    /** Each field is what the ledger dictates. */
    ghost predicate Valid()
      reads this
    {
      && ledger.Valid()
      && suppressedCount == |ledger.log|
      && reportedCount == ledger.cursor
      && firstSuppressedNanos == (if ledger.log == [] then ledger.initial else ledger.log[0])
      && lastSuppressedNanos == ledger.StampBefore(|ledger.log|)
      && lastReportedNanos == ledger.StampBefore(ledger.cursor)
      && firstUnreportedNanos == ledger.FirstUnreported()
    }

    constructor (now: Instant)
      ensures Valid() && ledger == NewLedger(now)
      ensures suppressedCount == 0 && reportedCount == 0
      ensures firstSuppressedNanos == lastSuppressedNanos == lastReportedNanos == firstUnreportedNanos == ToNanos(now)
    {
      suppressedCount, reportedCount := 0, 0;
      firstSuppressedNanos := ToNanos(now);
      lastSuppressedNanos := ToNanos(now);
      lastReportedNanos := ToNanos(now);
      firstUnreportedNanos := ToNanos(now);
      ledger := NewLedger(now);
    }

    method RecordSuppression(now: Instant)
      requires Valid()
      modifies this
      ensures Valid() && ledger == old(ledger).Record(now)
      ensures suppressedCount == old(suppressedCount) + 1 && reportedCount == old(reportedCount)
      ensures lastSuppressedNanos == ToNanos(now) && lastReportedNanos == old(lastReportedNanos)
      ensures firstSuppressedNanos == if old(suppressedCount) == 0 then ToNanos(now) else old(firstSuppressedNanos)
      ensures firstUnreportedNanos
           == if old(suppressedCount) == old(reportedCount) then ToNanos(now) else old(firstUnreportedNanos)
    {
      var nanos := ToNanos(now);
      var previousCount := suppressedCount;
      suppressedCount := suppressedCount + 1;
      if previousCount == 0 {
        firstSuppressedNanos := nanos;
      }
      if previousCount == reportedCount {
        firstUnreportedNanos := nanos;
      }
      lastSuppressedNanos := nanos;
      ledger := ledger.Record(now);
    }

    method ClaimUnreported(minCount: nat) returns (claim: Option<Claim>)
      requires Valid()
      modifies this
      ensures Valid() && (ledger, claim) == old(ledger).ClaimUnreported(minCount)
      ensures claim.Some? <==> old(suppressedCount) - old(reportedCount) >= Max(minCount, 1)
      ensures claim.None? ==> unchanged(this)
      ensures claim.Some? ==>
                && claim.value == Claim(old(reportedCount), old(lastReportedNanos),
                                        old(suppressedCount) - old(reportedCount), old(suppressedCount),
                                        old(firstUnreportedNanos), old(lastSuppressedNanos),
                                        Max(0, old(lastSuppressedNanos) - old(firstUnreportedNanos)))
                && reportedCount == suppressedCount == old(suppressedCount)
                && lastReportedNanos == lastSuppressedNanos == old(lastSuppressedNanos)
                && firstSuppressedNanos == old(firstSuppressedNanos)
    {
      var atLeast := Max(minCount, 1);
      var total := suppressedCount;
      var already := reportedCount;
      var unreported := SaturatingSub(total, already);
      if unreported < atLeast {
        return None;
      }
      var first := firstUnreportedNanos;
      var previousLast := lastReportedNanos;
      var last := lastSuppressedNanos;
      reportedCount := total;
      lastReportedNanos := last;
      firstUnreportedNanos := last;
      claim := Some(Claim(already, previousLast, unreported, total, first, last, SaturatingSince(last, first)));
      ledger := ledger.ClaimUnreported(minCount).0;
    }

    /**
     Undoing a claim this counter made keeps the fields determined by the ledger. So does any claim, made by
     whatever counter, whose end the cursor has not reached: nothing changes then.
    */
    method RollbackClaim(claim: Claim) returns (undone: bool)
      requires Valid()
      modifies this
      ensures undone == old(ledger).RollBack(claim).1
      ensures undone <==> old(reportedCount) >= claim.totalCount
                          || old(reportedCount) == claim.previousReportedCount
      ensures old(reportedCount) < claim.totalCount ==> unchanged(this)
      ensures old(ledger).Owns(claim) ==> Valid() && ledger == old(ledger).RollBack(claim).0
      ensures suppressedCount == old(suppressedCount) && firstSuppressedNanos == old(firstSuppressedNanos)
      ensures lastSuppressedNanos == old(lastSuppressedNanos)
      ensures old(reportedCount) >= claim.totalCount ==>
                && reportedCount == claim.previousReportedCount
                && lastReportedNanos == ToNanos(claim.previousLastReported)
                && firstUnreportedNanos == ToNanos(claim.firstSuppressed)
    {
      var previousLast := ToNanos(claim.previousLastReported);
      var firstUnreported := ToNanos(claim.firstSuppressed);
      var current := reportedCount;
      if current < claim.totalCount {
        return current == claim.previousReportedCount;
      }
      reportedCount := claim.previousReportedCount;
      lastReportedNanos := previousLast;
      firstUnreportedNanos := firstUnreported;
      undone := true;
      ledger := ledger.RollBack(claim).0;
    }

    method Reset(now: Instant)
      modifies this
      ensures Valid() && ledger == NewLedger(now)
      ensures suppressedCount == 0 && reportedCount == 0
      ensures firstSuppressedNanos == lastSuppressedNanos == lastReportedNanos == firstUnreportedNanos == ToNanos(now)
    {
      suppressedCount, reportedCount := 0, 0;
      firstSuppressedNanos := ToNanos(now);
      lastSuppressedNanos := ToNanos(now);
      lastReportedNanos := ToNanos(now);
      firstUnreportedNanos := ToNanos(now);
      ledger := NewLedger(now);
    }

    /** `count()`, `reported_count()` and `unreported_count()`. */
    method Counts() returns (total: nat, reported: nat, unreported: nat)
      requires Valid()
      ensures total == |ledger.log| && reported == ledger.cursor && unreported == ledger.Pending()
    {
      total, reported := suppressedCount, reportedCount;
      unreported := SaturatingSub(total, reported);
    }
  }
}

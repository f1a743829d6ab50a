/**
 What records, claims and rollbacks add up to over whole runs: a counter owns its claims, undoing
 back-to-back claims is order-independent, and the exact condition under which a rollback keeps every
 unreported suppression reachable.
*/
module LedgerTheory {
  import opened Wrappers
  import opened Machine
  import opened SuppressionCounters

  /** Clamping keeps what fits, in order, and is the nearest that fits. */
  lemma ToNanosClamps(t: Instant, u: Instant)
    ensures 0 <= t <= 0xFFFF_FFFF_FFFF_FFFF ==> ToNanos(t) == t
    ensures t < 0 ==> ToNanos(t) == 0
    ensures t > 0xFFFF_FFFF_FFFF_FFFF ==> ToNanos(t) == 0xFFFF_FFFF_FFFF_FFFF
    ensures t <= u ==> ToNanos(t) <= ToNanos(u)
  {
  }

  datatype Op = Record(now: Instant) | ClaimAll(minCount: nat) | Undo(claim: nat)

  /** A counter, the claims it ever handed out in order, and which of them were undone. */
  datatype History = History(ledger: Ledger, claims: seq<Claim>, undone: set<nat>)

  ghost function Step(h: History, op: Op): History
    requires h.ledger.Valid()
  {
    match op
    case Record(now) => h.(ledger := h.ledger.Record(now))
    case ClaimAll(minCount) =>
      var (ledger, claim) := h.ledger.ClaimUnreported(minCount);
      History(ledger, h.claims + (if claim.Some? then [claim.value] else []), h.undone)
    case Undo(i) =>
      if i < |h.claims| then h.(ledger := h.ledger.RollBack(h.claims[i]).0, undone := h.undone + {i}) else h
  }

  ghost predicate OwnsAll(h: History) {
    h.ledger.Valid() && forall i | 0 <= i < |h.claims| :: h.ledger.Owns(h.claims[i])
  }

  lemma StepKeepsOwnership(h: History, op: Op)
    requires OwnsAll(h)
    ensures OwnsAll(Step(h, op))
    ensures h.ledger.initial == Step(h, op).ledger.initial && h.ledger.log <= Step(h, op).ledger.log
  {
    var h' := Step(h, op);
    forall i | 0 <= i < |h'.claims| ensures h'.ledger.Owns(h'.claims[i]) {
      if i < |h.claims| {
        assert h.ledger.Owns(h.claims[i]);
      }
    }
  }

  /** A run from a new counter. */
  ghost function Run(start: Instant, ops: seq<Op>): (h: History)
    ensures OwnsAll(h)
  {
    if ops == [] then History(NewLedger(start), [], {})
    else
      var h := Run(start, ops[..|ops| - 1]);
      StepKeepsOwnership(h, ops[|ops| - 1]);
      Step(h, ops[|ops| - 1])
  }

  // ---- One claim and its rollback ----

  /** A claim covers everything unreported, needs at least max(1, minCount) of it, and is taken iff there is. */
  lemma ClaimTakesAllPending(l: Ledger, minCount: nat)
    requires l.Valid()
    ensures var (l', claim) := l.ClaimUnreported(minCount);
            && (claim.Some? <==> l.Pending() >= 1 && l.Pending() >= minCount)
            && l'.Valid() && l'.log == l.log
            && (claim.None? ==> l' == l)
            && (claim.Some? ==> l'.Owns(claim.value) && l'.Pending() == 0 && claim.value.count == l.Pending()
                                && claim.value.previousReportedCount == l.cursor)
  {
  }

  /** The claim, read off the log alone: its range, its ends, and the time between them. */
  ghost predicate Describes(l: Ledger, c: Claim) {
    var (lo, hi) := (c.previousReportedCount, c.totalCount);
    && lo < hi <= |l.log| && c.count == hi - lo
    && c.firstSuppressed == l.log[lo] && c.lastSuppressed == l.log[hi - 1]
    && c.duration == Max(0, l.log[hi - 1] as int - l.log[lo] as int)
    && c.previousLastReported == (if lo == 0 then l.initial else l.log[lo - 1])
  }

  lemma OwnedIsDescribed(l: Ledger, c: Claim)
    ensures l.Owns(c) <==> Describes(l, c)
  {
  }

  /** Every claim taken describes everything from the cursor to the end of the log. */
  lemma ClaimDescribesPending(l: Ledger, minCount: nat)
    requires l.Valid()
    ensures var claim := l.ClaimUnreported(minCount).1;
            claim.Some? ==>
              && Describes(l, claim.value)
              && claim.value.previousReportedCount == l.cursor && claim.value.totalCount == |l.log|
  {
  }

  ghost function RecordAll(l: Ledger, times: seq<Instant>): (r: Ledger)
    ensures r.cursor == l.cursor && r.initial == l.initial && l.log <= r.log
  {
    if times == [] then l else RecordAll(l, times[..|times| - 1]).Record(times[|times| - 1])
  }

  /**
   Whatever was recorded while a claim was out, undoing it leaves the counter as if it had never been taken:
   with no records in between, every field is restored.
  */
  lemma {:induction false} RollbackForgetsClaim(l: Ledger, minCount: nat, times: seq<Instant>)
    requires l.Valid() && l.ClaimUnreported(minCount).1.Some?
    ensures var (claimed, claim) := l.ClaimUnreported(minCount);
            RecordAll(claimed, times).RollBack(claim.value) == (RecordAll(l, times), true)
  {
    var (claimed, claim) := l.ClaimUnreported(minCount);
    RecordingCommutesWithClaiming(l, |l.log|, times);
  }

  lemma {:induction false} RecordingCommutesWithClaiming(l: Ledger, cursor: nat, times: seq<Instant>)
    ensures RecordAll(l.(cursor := cursor), times) == RecordAll(l, times).(cursor := cursor)
  {
    if times != [] {
      RecordingCommutesWithClaiming(l, cursor, times[..|times| - 1]);
    }
  }

  // ---- Back-to-back claims ----

  /** Outstanding claims that follow one another, the last reaching the cursor. */
  ghost predicate BackToBack(l: Ledger, claims: seq<Claim>) {
    && |claims| > 0
    && (forall i | 0 <= i < |claims| :: l.Owns(claims[i]))
    && (forall i | 0 <= i < |claims| - 1 :: claims[i].totalCount == claims[i + 1].previousReportedCount)
    && claims[|claims| - 1].totalCount == l.cursor
  }

  lemma {:induction false} BackToBackIsOrdered(l: Ledger, claims: seq<Claim>, i: nat, j: nat)
    requires BackToBack(l, claims) && i < j < |claims|
    ensures claims[i].totalCount <= claims[j].previousReportedCount
  {
    assert l.Owns(claims[j]);
    if i < j - 1 {
      BackToBackIsOrdered(l, claims, i, j - 1);
      assert l.Owns(claims[j - 1]);
    }
  }

  /** Undo and record in any order; no new claims. */
  ghost function UndoAll(l: Ledger, claims: seq<Claim>, ops: seq<Op>): Ledger
    requires forall k | 0 <= k < |ops| :: !ops[k].ClaimAll? && (ops[k].Undo? ==> ops[k].claim < |claims|)
  {
    if ops == [] then l
    else
      var before := UndoAll(l, claims, ops[..|ops| - 1]);
      match ops[|ops| - 1]
      case Record(now) => before.Record(now)
      case Undo(i) => before.RollBack(claims[i]).0
      case ClaimAll(_) => before
  }

  /** The earliest claim among those undone; `|claims|` when none is. */
  ghost function EarliestUndone(count: nat, ops: seq<Op>): (m: nat)
    ensures m <= count
  {
    if ops == [] then count
    else
      var m := EarliestUndone(count, ops[..|ops| - 1]);
      if ops[|ops| - 1].Undo? && ops[|ops| - 1].claim < m then ops[|ops| - 1].claim else m
  }

  lemma {:induction false} EarliestIsEarliest(count: nat, ops: seq<Op>)
    ensures var m := EarliestUndone(count, ops);
            && (forall k | 0 <= k < |ops| && ops[k].Undo? :: m <= ops[k].claim)
            && (m < count ==> exists k :: 0 <= k < |ops| && ops[k] == Undo(m))
  {
    if ops != [] {
      var init := ops[..|ops| - 1];
      EarliestIsEarliest(count, init);
      var m := EarliestUndone(count, ops);
      if m < count && m == EarliestUndone(count, init) {
        var k :| 0 <= k < |init| && init[k] == Undo(m);
        assert ops[k] == Undo(m);
      }
    }
  }

  /**
   Undoing any of the claims, in any order and any number of times, with records in between, leaves the
   cursor at the earliest undone start; the log is only ever appended to, so every timestamp follows.
  */
  lemma {:induction false} UndoIsOrderIndependent(l: Ledger, claims: seq<Claim>, ops: seq<Op>)
    requires l.Valid() && BackToBack(l, claims)
    requires forall k | 0 <= k < |ops| :: !ops[k].ClaimAll? && (ops[k].Undo? ==> ops[k].claim < |claims|)
    ensures var m := EarliestUndone(|claims|, ops);
            UndoAll(l, claims, ops).cursor
            == if m < |claims| then claims[m].previousReportedCount else l.cursor
    ensures UndoAll(l, claims, ops).initial == l.initial && l.log <= UndoAll(l, claims, ops).log
  {
    if ops != [] {
      var init, last := ops[..|ops| - 1], ops[|ops| - 1];
      UndoIsOrderIndependent(l, claims, init);
      if last.Undo? {
        var m := EarliestUndone(|claims|, init);
        if m < last.claim < |claims| && m < |claims| {
          BackToBackIsOrdered(l, claims, m, last.claim);
          assert l.Owns(claims[m]) && l.Owns(claims[last.claim]);
        } else if last.claim < m < |claims| {
          BackToBackIsOrdered(l, claims, last.claim, m);
        } else if last.claim < |claims| - 1 && m == |claims| {
          BackToBackIsOrdered(l, claims, last.claim, |claims| - 1);
          assert l.Owns(claims[|claims| - 1]);
        } else {
          assert l.Owns(claims[last.claim]);
        }
      }
    }
  }

  // ---- Nothing reported is lost, exactly when ----

  ghost predicate CoveredBy(h: History, x: nat, i: nat) {
    i < |h.claims| && i !in h.undone && h.claims[i].previousReportedCount <= x < h.claims[i].totalCount
  }

  ghost predicate InLiveClaim(h: History, x: nat) {
    exists i :: CoveredBy(h, x, i)
  }

  /** Every suppression below the cursor is in a claim that was not undone. */
  ghost predicate Covered(h: History) {
    forall x | 0 <= x < h.ledger.cursor :: InLiveClaim(h, x)
  }

  /** The cursor stands strictly inside the claim: the branch in which a rollback reports failure for it. */
  ghost predicate StrictlyInside(l: Ledger, claim: Claim) {
    claim.previousReportedCount < l.cursor < claim.totalCount
  }

  lemma UndoOutsideKeepsCovered(h: History, i: nat)
    requires OwnsAll(h) && Covered(h) && i < |h.claims| && !StrictlyInside(h.ledger, h.claims[i])
    ensures Covered(Step(h, Undo(i)))
  {
    var h' := Step(h, Undo(i));
    assert h.ledger.Owns(h.claims[i]);
    forall x | 0 <= x < h'.ledger.cursor ensures InLiveClaim(h', x) {
      assert InLiveClaim(h, x);
      var j :| CoveredBy(h, x, j);
      assert CoveredBy(h', x, j);
    }
  }

  lemma StepKeepsCovered(h: History, op: Op)
    requires OwnsAll(h) && Covered(h)
    requires Outside(h, op)
    requires forall i | i in h.undone :: i < |h.claims|
    ensures Covered(Step(h, op))
  {
    var h' := Step(h, op);
    if op.Undo? && op.claim < |h.claims| {
      UndoOutsideKeepsCovered(h, op.claim);
    } else {
      forall x | 0 <= x < h'.ledger.cursor ensures InLiveClaim(h', x) {
        if x < h.ledger.cursor {
          assert InLiveClaim(h, x);
          var j :| CoveredBy(h, x, j);
          assert CoveredBy(h', x, j);
        } else {
          assert CoveredBy(h', x, |h.claims|);
        }
      }
    }
  }

  /** The operation is no undo that finds the cursor strictly inside its own range. */
  ghost predicate Outside(h: History, op: Op) {
    op.Undo? && op.claim < |h.claims| ==> !StrictlyInside(h.ledger, h.claims[op.claim])
  }

  /** No undo of the run finds the cursor strictly inside its own range. */
  ghost predicate UndoesOutside(start: Instant, ops: seq<Op>) {
    ops == [] ||
    var init := ops[..|ops| - 1];
    UndoesOutside(start, init) && Outside(Run(start, init), ops[|ops| - 1])
  }

  lemma {:induction false} RollbackNeverLoses(start: Instant, ops: seq<Op>)
    requires UndoesOutside(start, ops)
    ensures Covered(Run(start, ops))
    ensures forall i | i in Run(start, ops).undone :: i < |Run(start, ops).claims|
  {
    if ops != [] {
      var init := ops[..|ops| - 1];
      RollbackNeverLoses(start, init);
      StepKeepsCovered(Run(start, init), ops[|ops| - 1]);
    }
  }

  /** Some run with safe undos so far leads here. */
  ghost predicate Reachable(start: Instant, h: History) {
    exists ops: seq<Op> :: UndoesOutside(start, ops) && Run(start, ops) == h
  }

  lemma ReachableOwns(start: Instant, h: History)
    requires Reachable(start, h)
    ensures OwnsAll(h) && Covered(h)
  {
    var ops: seq<Op> :| UndoesOutside(start, ops) && Run(start, ops) == h;
    RollbackNeverLoses(start, ops);
  }

  lemma StartReachable(start: Instant)
    ensures Reachable(start, History(NewLedger(start), [], {}))
  {
    assert Run(start, []) == History(NewLedger(start), [], {});
  }

  lemma StepReachable(start: Instant, h: History, op: Op)
    requires Reachable(start, h) && h.ledger.Valid() && Outside(h, op)
    ensures Reachable(start, Step(h, op))
  {
    var ops: seq<Op> :| UndoesOutside(start, ops) && Run(start, ops) == h;
    var more := ops + [op];
    RunSnoc(start, ops, op);
    assert more[..|more| - 1] == ops;
    assert UndoesOutside(start, more);
  }

  /** The counter when its log ended at `n`, with the given cursor. */
  ghost function UpTo(l: Ledger, n: nat, cursor: nat): Ledger
    requires n <= |l.log|
  {
    Ledger(l.initial, l.log[..n], cursor)
  }

  lemma RecordNext(l: Ledger, n: nat, cursor: nat, claims: seq<Claim>, undone: set<nat>)
    requires cursor <= n < |l.log|
    ensures Step(History(UpTo(l, n, cursor), claims, undone), Record(l.log[n]))
         == History(UpTo(l, n + 1, cursor), claims, undone)
  {
    assert l.log[..n] + [l.log[n]] == l.log[..n + 1];
  }

  /** Recording the next entries of a log. */
  lemma {:induction false} RecordUpTo(start: Instant, l: Ledger, m: nat, n: nat, cursor: nat, claims: seq<Claim>,
                                      undone: set<nat>)
    requires cursor <= m <= n <= |l.log|
    requires Reachable(start, History(UpTo(l, m, cursor), claims, undone))
    ensures Reachable(start, History(UpTo(l, n, cursor), claims, undone))
    decreases n - m
  {
    if m < n {
      RecordNext(l, m, cursor, claims, undone);
      StepReachable(start, History(UpTo(l, m, cursor), claims, undone), Record(l.log[m]));
      RecordUpTo(start, l, m + 1, n, cursor, claims, undone);
    }
  }

  /** Claiming everything from `lo` up to `hi`. */
  lemma ClaimUpTo(start: Instant, l: Ledger, lo: nat, m: nat, hi: nat, claims: seq<Claim>, undone: set<nat>)
    requires lo <= m <= hi <= |l.log| && lo < hi
    requires Reachable(start, History(UpTo(l, m, lo), claims, undone))
    ensures Reachable(start, History(UpTo(l, hi, hi), claims + [l.Slice(lo, hi)], undone))
  {
    RecordUpTo(start, l, m, hi, lo, claims, undone);
    StepReachable(start, History(UpTo(l, hi, lo), claims, undone), ClaimAll(0));
    assert UpTo(l, hi, lo).Slice(lo, hi) == l.Slice(lo, hi);
  }

  /** Undoing a claim the cursor has passed. */
  lemma UndoPassed(start: Instant, l: Ledger, n: nat, cursor: nat, claims: seq<Claim>, undone: set<nat>, i: nat)
    requires cursor <= n <= |l.log| && i < |claims| && claims[i].totalCount <= cursor
    requires Reachable(start, History(UpTo(l, n, cursor), claims, undone))
    ensures Reachable(start, History(UpTo(l, n, claims[i].previousReportedCount), claims, undone + {i}))
  {
    StepReachable(start, History(UpTo(l, n, cursor), claims, undone), Undo(i));
  }

  /** One claim of everything below `lo`, if there is anything. */
  ghost function FirstClaim(l: Ledger, lo: nat): seq<Claim>
    requires lo <= |l.log|
  {
    if lo == 0 then [] else [l.Slice(0, lo)]
  }

  lemma FirstClaimReachable(l: Ledger, lo: nat)
    requires lo <= |l.log|
    ensures Reachable(l.initial, History(UpTo(l, lo, lo), FirstClaim(l, lo), {}))
  {
    StartReachable(l.initial);
    assert UpTo(l, 0, 0) == NewLedger(l.initial);
    if lo > 0 {
      ClaimUpTo(l.initial, l, 0, 0, lo, [], {});
      assert [] + [l.Slice(0, lo)] == FirstClaim(l, lo);
    }
  }

  /** The claims [0, lo), [lo, c), [c, hi) and, the second undone, [lo, hi). */
  ghost function Overlapping(l: Ledger, lo: nat, c: nat, hi: nat): (claims: seq<Claim>)
    requires lo < c < hi <= |l.log|
    ensures var i := |FirstClaim(l, lo)|;
            |claims| == i + 3 && claims[i] == l.Slice(lo, c) && claims[i + 1] == l.Slice(c, hi)
            && claims[i + 2] == l.Slice(lo, hi) && claims[..i] == FirstClaim(l, lo)
  {
    FirstClaim(l, lo) + [l.Slice(lo, c)] + [l.Slice(c, hi)] + [l.Slice(lo, hi)]
  }

  lemma OverlappingReachable(l: Ledger, lo: nat, c: nat, hi: nat)
    requires lo < c < hi <= |l.log|
    ensures Reachable(l.initial, History(UpTo(l, hi, hi), Overlapping(l, lo, c, hi), {|FirstClaim(l, lo)|}))
  {
    var first := FirstClaim(l, lo);
    FirstClaimReachable(l, lo);
    ClaimUpTo(l.initial, l, lo, lo, c, first, {});
    ClaimUpTo(l.initial, l, c, c, hi, first + [l.Slice(lo, c)], {});
    var claims := first + [l.Slice(lo, c)] + [l.Slice(c, hi)];
    assert claims[|first|] == l.Slice(lo, c);
    UndoPassed(l.initial, l, hi, hi, claims, {}, |first|);
    assert {} + {|first|} == {|first|};
    ClaimUpTo(l.initial, l, lo, hi, hi, claims, {|first|});
  }

  /** With the third of them undone too, the cursor stands inside the last: every such counter is reached. */
  lemma InsideIsReachable(l: Ledger, lo: nat, hi: nat)
    requires lo < l.cursor < hi <= |l.log|
    ensures var i := |FirstClaim(l, lo)|;
            Reachable(l.initial, History(l, Overlapping(l, lo, l.cursor, hi), {i} + {i + 1}))
  {
    var i := |FirstClaim(l, lo)|;
    var claims := Overlapping(l, lo, l.cursor, hi);
    OverlappingReachable(l, lo, l.cursor, hi);
    UndoPassed(l.initial, l, hi, hi, claims, {i}, i + 1);
    RecordUpTo(l.initial, l, hi, |l.log|, l.cursor, claims, {i} + {i + 1});
    assert l.log[..|l.log|] == l.log;
  }

  /** Undoing the last leaves the first entry of its range reported but in no live claim. */
  lemma UndoInsideLoses(l: Ledger, lo: nat, hi: nat)
    requires l.Valid() && lo < l.cursor < hi <= |l.log|
    ensures var i := |FirstClaim(l, lo)|;
            !Covered(Step(History(l, Overlapping(l, lo, l.cursor, hi), {i} + {i + 1}), Undo(i + 2)))
  {
    var i := |FirstClaim(l, lo)|;
    var claims := Overlapping(l, lo, l.cursor, hi);
    var h' := Step(History(l, claims, {i} + {i + 1}), Undo(i + 2));
    assert h'.ledger == l;
    forall j | 0 <= j < i ensures !CoveredBy(h', lo, j) {
      assert claims[j] == claims[..i][j];
    }
    assert !InLiveClaim(h', lo);
  }

  /** Undoing the claim is safe in every run that leads to this counter. */
  ghost predicate UndoSafe(l: Ledger, claim: Claim)
    requires l.Valid()
  {
    forall start: Instant, h: History, i: nat |
      Reachable(start, h) && h.ledger == l && i < |h.claims| && h.claims[i] == claim ::
      Covered(Step(h, Undo(i)))
  }

  /**
   The condition is exact over runs: knowing only the counter and the claim, undoing it keeps every reported
   suppression in a live claim, in every run that leads there, if and only if the cursor is not strictly
   inside the claim.
  */
  lemma UndoSafeExactly(l: Ledger, claim: Claim)
    requires l.Valid() && l.Owns(claim)
    ensures UndoSafe(l, claim) <==> !StrictlyInside(l, claim)
  {
    if StrictlyInside(l, claim) {
      var (lo, hi) := (claim.previousReportedCount, claim.totalCount);
      var i := |FirstClaim(l, lo)|;
      var h := History(l, Overlapping(l, lo, l.cursor, hi), {i} + {i + 1});
      InsideIsReachable(l, lo, hi);
      UndoInsideLoses(l, lo, hi);
      assert h.claims[i + 2] == claim && !Covered(Step(h, Undo(i + 2)));
    } else {
      forall start: Instant, h: History, i: nat |
        Reachable(start, h) && h.ledger == l && i < |h.claims| && h.claims[i] == claim
        ensures Covered(Step(h, Undo(i)))
      {
        ReachableOwns(start, h);
        UndoOutsideKeepsCovered(h, i);
      }
    }
  }

  ghost function ThreeRecords(): Ledger {
    Ledger(0, [1, 2, 3], 3)
  }

  lemma TwoClaims() returns (ops: seq<Op>)
    ensures Run(0, ops)
         == History(ThreeRecords(), [ThreeRecords().Slice(0, 2), ThreeRecords().Slice(2, 3)], {})
  {
    RunSnoc(0, [], Record(1));
    ops := [] + [Record(1)];
    assert Run(0, ops) == History(Ledger(0, [1], 0), [], {});
    RunSnoc(0, ops, Record(2));
    ops := ops + [Record(2)];
    assert Run(0, ops) == History(Ledger(0, [1, 2], 0), [], {});
    RunSnoc(0, ops, ClaimAll(0));
    ops := ops + [ClaimAll(0)];
    assert Run(0, ops) == History(Ledger(0, [1, 2], 2), [ThreeRecords().Slice(0, 2)], {});
    RunSnoc(0, ops, Record(3));
    ops := ops + [Record(3)];
    RunSnoc(0, ops, ClaimAll(0));
    ops := ops + [ClaimAll(0)];
  }

  lemma FirstUndoneThirdClaimed() returns (ops: seq<Op>)
    ensures var l := ThreeRecords();
            Run(0, ops) == History(l, [l.Slice(0, 2), l.Slice(2, 3), l.Slice(0, 3)], {0})
  {
    var l := ThreeRecords();
    ops := TwoClaims();
    RunSnoc(0, ops, Undo(0));
    ops := ops + [Undo(0)];
    assert Run(0, ops) == History(l.(cursor := 0), [l.Slice(0, 2), l.Slice(2, 3)], {0});
    RunSnoc(0, ops, ClaimAll(0));
    ops := ops + [ClaimAll(0)];
  }

  lemma AllUndone() returns (ops: seq<Op>)
    ensures var l := ThreeRecords();
            Run(0, ops) == History(l.(cursor := 2), [l.Slice(0, 2), l.Slice(2, 3), l.Slice(0, 3)], {0, 1, 2})
  {
    var l := ThreeRecords();
    ops := FirstUndoneThirdClaimed();
    RunSnoc(0, ops, Undo(1));
    ops := ops + [Undo(1)];
    assert Run(0, ops) == History(l.(cursor := 2), [l.Slice(0, 2), l.Slice(2, 3), l.Slice(0, 3)], {0, 1});
    RunSnoc(0, ops, Undo(2));
    ops := ops + [Undo(2)];
  }

  /**
   The unconditional form is false of a run: two records and a claim of both, one more and its claim, undo the
   first, claim all three, undo the second, undo the third. Every claim is undone, yet two suppressions count
   as reported.
  */
  lemma RollbackCanLose()
    ensures exists ops: seq<Op> ::
      var h := Run(0, ops); h.undone == {0, 1, 2} && |h.claims| == 3 && h.ledger.cursor == 2 && !Covered(h)
  {
    var ops := AllUndone();
    assert !InLiveClaim(Run(0, ops), 0);
  }

  lemma RunSnoc(start: Instant, ops: seq<Op>, op: Op)
    ensures Run(start, ops + [op]) == Step(Run(start, ops), op)
  {
    assert (ops + [op])[..|ops|] == ops;
  }
}

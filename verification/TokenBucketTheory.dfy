/**
 The token bucket over whole traces. Nothing here assumes a monotone clock: elapsed time between two
 events is the sum of the forward moves of the clock between them, which for nondecreasing timestamps
 is their difference.
*/
module TokenBucketTheory {
  import opened Wrappers
  import opened Machine
  import opened Policies

  /** How far the clock moved forward, in total, from event `k` to event `j`. */
  ghost function Forward(ts: seq<Instant>, k: nat, j: nat): (d: nat)
    requires k <= j < |ts|
    decreases j
  {
    if k == j then 0 else Forward(ts, k, j - 1) + SaturatingSince(ts[j], ts[j - 1])
  }

  lemma {:induction false} ForwardOfMonotoneClock(ts: seq<Instant>, k: nat, j: nat)
    requires k <= j < |ts| && Nondecreasing(ts)
    ensures Forward(ts, k, j) == ts[j] - ts[k]
    decreases j
  {
    if k < j {
      ForwardOfMonotoneClock(ts, k, j - 1);
    }
  }

  /** The most events a bucket may let through from event `k` up to and including event `j`. */
  ghost function Ceiling(p: Policy, ts: seq<Instant>, k: nat, j: nat): real
    requires p.TokenBucket? && k <= j < |ts|
  {
    p.capacity + Gain(p.refillRate, Forward(ts, k, j))
  }

  /** What the interval starting at `k` leaves for event `j`. */
  ghost function Slack(p: Policy, ts: seq<Instant>, k: nat, j: nat): real
    requires p.TokenBucket? && k <= j < |ts|
  {
    Ceiling(p, ts, k, j) - AllowedIn(Decisions(p, ts), k, j) as real
  }

  /** The tokens in the bucket when event `j` asks for one. */
  ghost function TokensAt(p: Policy, ts: seq<Instant>, j: nat): real
    requires p.Fresh() && p.TokenBucket? && j < |ts|
  {
    AfterKeepsValid(p, ts, j);
    Refill(After(p, ts, j), ts[j]).tokens
  }

  lemma {:induction false} LastRefillIsPreviousEvent(p: Policy, ts: seq<Instant>, j: nat)
    requires p.Fresh() && p.TokenBucket? && j <= |ts|
    ensures After(p, ts, j).TokenBucket?
    ensures After(p, ts, j).lastRefill == if j == 0 then None else Some(ts[j - 1])
  {
    AfterKeepsValid(p, ts, j);
    if j > 0 {
      LastRefillIsPreviousEvent(p, ts, j - 1);
    }
  }

  /** One event's effect on the tokens: consume, gain the forward move, cap. */
  lemma TokensRecurrence(p: Policy, ts: seq<Instant>, j: nat)
    requires p.Fresh() && p.TokenBucket? && 0 < j < |ts|
    ensures var left := TokensAt(p, ts, j - 1) - if DecisionAt(p, ts, j - 1) == Allow then 1.0 else 0.0;
            TokensAt(p, ts, j)
            == MinReal(left + Gain(p.refillRate, SaturatingSince(ts[j], ts[j - 1])), p.capacity)
  {
    AfterKeepsValid(p, ts, j);
    AfterKeepsValid(p, ts, j - 1);
    LastRefillIsPreviousEvent(p, ts, j);
    var before := After(p, ts, j);
    assert before.tokens == TokensAt(p, ts, j - 1) - if DecisionAt(p, ts, j - 1) == Allow then 1.0 else 0.0;
    if ts[j] <= ts[j - 1] {
      assert Gain(p.refillRate, 0) == 0.0;
    }
  }

  lemma SlackRecurrence(p: Policy, ts: seq<Instant>, k: nat, j: nat)
    requires p.Fresh() && p.TokenBucket? && k < j < |ts|
    ensures Slack(p, ts, k, j)
         == Slack(p, ts, k, j - 1) - (if DecisionAt(p, ts, j - 1) == Allow then 1.0 else 0.0)
            + Gain(p.refillRate, SaturatingSince(ts[j], ts[j - 1]))
  {
    GainIsAdditive(p.refillRate, Forward(ts, k, j - 1), SaturatingSince(ts[j], ts[j - 1]));
  }

  lemma SlackOfEmptyInterval(p: Policy, ts: seq<Instant>, j: nat)
    requires p.TokenBucket? && j < |ts|
    ensures Slack(p, ts, j, j) == p.capacity
  {
    assert Gain(p.refillRate, 0) == 0.0;
  }

  /**
   The exact greedy form: the tokens available to event `j` are the least, over all starting points `k`,
   of capacity plus refill since `k` minus the events allowed since `k`.
  */
  lemma {:induction false} TokensAreLeastSlack(p: Policy, ts: seq<Instant>, j: nat)
    requires p.Fresh() && p.TokenBucket? && j < |ts|
    ensures forall k | 0 <= k <= j :: TokensAt(p, ts, j) <= Slack(p, ts, k, j)
    ensures exists k | 0 <= k <= j :: TokensAt(p, ts, j) == Slack(p, ts, k, j)
  {
    SlackOfEmptyInterval(p, ts, j);
    if j == 0 {
      assert TokensAt(p, ts, 0) == Slack(p, ts, 0, 0);
    } else {
      TokensAreLeastSlack(p, ts, j - 1);
      TokensRecurrence(p, ts, j);
      forall k | 0 <= k < j
        ensures TokensAt(p, ts, j) <= Slack(p, ts, k, j)
      {
        SlackRecurrence(p, ts, k, j);
      }
      var m :| 0 <= m <= j - 1 && TokensAt(p, ts, j - 1) == Slack(p, ts, m, j - 1);
      SlackRecurrence(p, ts, m, j);
      assert TokensAt(p, ts, j) == Slack(p, ts, m, j) || TokensAt(p, ts, j) == Slack(p, ts, j, j);
    }
  }

  /** Admitting event `j` keeps every interval that ends at `j` within its ceiling. */
  ghost predicate Admissible(p: Policy, ts: seq<Instant>, ds: seq<Decision>, j: nat)
    requires p.TokenBucket? && |ds| == |ts| && j < |ts|
  {
    forall k | 0 <= k <= j :: AllowedIn(ds, k, j) as real + 1.0 <= Ceiling(p, ts, k, j)
  }

  /** The reference policy: no tokens, only counts of past decisions. */
  ghost predicate GreedyByIntervals(p: Policy, ts: seq<Instant>, ds: seq<Decision>)
    requires p.TokenBucket?
  {
    && |ds| == |ts|
    && forall j | 0 <= j < |ts| :: ds[j] == Allow <==> Admissible(p, ts, ds, j)
  }

  lemma AllowedIffAdmissible(p: Policy, ts: seq<Instant>, j: nat)
    requires p.Fresh() && p.TokenBucket? && j < |ts|
    ensures DecisionAt(p, ts, j) == Allow <==> Admissible(p, ts, Decisions(p, ts), j)
  {
    AfterKeepsValid(p, ts, j);
    TokensAreLeastSlack(p, ts, j);
    assert DecisionAt(p, ts, j) == Allow <==> TokensAt(p, ts, j) >= 1.0;
    var k :| 0 <= k <= j && TokensAt(p, ts, j) == Slack(p, ts, k, j);
    if Admissible(p, ts, Decisions(p, ts), j) {
      assert AllowedIn(Decisions(p, ts), k, j) as real + 1.0 <= Ceiling(p, ts, k, j);
    } else {
      var m :| 0 <= m <= j && !(AllowedIn(Decisions(p, ts), m, j) as real + 1.0 <= Ceiling(p, ts, m, j));
      assert TokensAt(p, ts, j) <= Slack(p, ts, m, j);
    }
  }

  lemma {:induction false} GreedyIsUnique(p: Policy, ts: seq<Instant>, ds: seq<Decision>, es: seq<Decision>, n: nat)
    requires p.TokenBucket? && n <= |ts|
    requires GreedyByIntervals(p, ts, ds) && GreedyByIntervals(p, ts, es)
    ensures forall j | 0 <= j < n :: ds[j] == es[j]
  {
    if n > 0 {
      GreedyIsUnique(p, ts, ds, es, n - 1);
      AdmissibleAgrees(p, ts, ds, es, n - 1);
    }
  }

  lemma {:induction false} AllowedInAgrees(ds: seq<Decision>, es: seq<Decision>, k: nat, n: nat)
    requires k <= n <= |ds| && n <= |es|
    requires forall j | 0 <= j < n :: ds[j] == es[j]
    ensures AllowedIn(ds, k, n) == AllowedIn(es, k, n)
    decreases n
  {
    if k < n {
      AllowedInAgrees(ds, es, k, n - 1);
    }
  }

  lemma AdmissibleAgrees(p: Policy, ts: seq<Instant>, ds: seq<Decision>, es: seq<Decision>, n: nat)
    requires p.TokenBucket? && |ds| == |es| == |ts| && n < |ts|
    requires forall j | 0 <= j < n :: ds[j] == es[j]
    ensures Admissible(p, ts, ds, n) <==> Admissible(p, ts, es, n)
  {
    forall k: nat | k <= n ensures AllowedIn(ds, k, n) == AllowedIn(es, k, n) {
      AllowedInAgrees(ds, es, k, n);
    }
  }

  /** The bucket refines the reference policy, and nothing else does. */
  lemma BucketIsGreedyByIntervals(p: Policy, ts: seq<Instant>, ds: seq<Decision>)
    requires p.Fresh() && p.TokenBucket?
    ensures ds == Decisions(p, ts) <==> GreedyByIntervals(p, ts, ds)
  {
    var bucket := Decisions(p, ts);
    forall j | 0 <= j < |ts| ensures bucket[j] == Allow <==> Admissible(p, ts, bucket, j) {
      AllowedIffAdmissible(p, ts, j);
    }
    assert GreedyByIntervals(p, ts, bucket);
    if GreedyByIntervals(p, ts, ds) {
      GreedyIsUnique(p, ts, ds, bucket, |ts|);
    }
  }

  /** No contiguous run of events ever gets more through than its ceiling. */
  lemma EveryRunWithinCeiling(p: Policy, ts: seq<Instant>, i: nat, j: nat)
    requires p.Fresh() && p.TokenBucket? && i <= j < |ts|
    ensures AllowedIn(Decisions(p, ts), i, j + 1) as real <= Ceiling(p, ts, i, j)
  {
    AfterKeepsValid(p, ts, j);
    AfterKeepsValid(p, ts, j + 1);
    TokensAreLeastSlack(p, ts, j);
    var spent := if DecisionAt(p, ts, j) == Allow then 1 else 0;
    assert After(p, ts, j + 1).tokens == TokensAt(p, ts, j) - spent as real;
    assert TokensAt(p, ts, j) <= Slack(p, ts, i, j);
    assert AllowedIn(Decisions(p, ts), i, j + 1) == AllowedIn(Decisions(p, ts), i, j) + spent;
  }

  lemma CeilingOfMonotoneClock(p: Policy, ts: seq<Instant>, i: nat, j: nat)
    requires p.TokenBucket? && i <= j < |ts| && Nondecreasing(ts)
    ensures Ceiling(p, ts, i, j) == p.capacity + Gain(p.refillRate, ts[j] - ts[i])
  {
    ForwardOfMonotoneClock(ts, i, j);
  }

  /** With a clock that never steps back the ceiling is capacity plus rate times elapsed time. */
  lemma EveryRunWithinElapsed(p: Policy, ts: seq<Instant>, i: nat, j: nat)
    requires p.Fresh() && p.TokenBucket? && i <= j < |ts| && Nondecreasing(ts)
    ensures AllowedIn(Decisions(p, ts), i, j + 1) as real <= p.capacity + Gain(p.refillRate, ts[j] - ts[i])
  {
    CeilingOfMonotoneClock(p, ts, i, j);
    EveryRunWithinCeiling(p, ts, i, j);
  }

  /** The same in nanoseconds: what goes beyond one capacity takes 1 / rate seconds for every token. */
  lemma EveryRunWithinNanos(p: Policy, ts: seq<Instant>, i: nat, j: nat)
    requires p.Fresh() && p.TokenBucket? && i <= j < |ts| && Nondecreasing(ts)
    ensures (AllowedIn(Decisions(p, ts), i, j + 1) as real - p.capacity) * 1000000000.0
         <= p.refillRate * (ts[j] - ts[i]) as real
  {
    EveryRunWithinElapsed(p, ts, i, j);
    GainPerSecond(p.refillRate, ts[j] - ts[i]);
    var over := AllowedIn(Decisions(p, ts), i, j + 1) as real - p.capacity;
    assert over <= Gain(p.refillRate, ts[j] - ts[i]);
  }

  /**
   When a bucket allows its next event, exactly: never if it cannot hold a token; otherwise when it still has
   one, or the clock went forward by as many nanoseconds as the rest of one takes.
  */
  lemma NextTokenExactly(p: Policy, last: Instant, now: Instant)
    requires p.Valid() && p.TokenBucket? && p.lastRefill == Some(last)
    ensures Register(p, now).1 == Allow
       <==> && p.capacity >= 1.0
            && (p.tokens >= 1.0
                || (now >= last && p.refillRate * (now - last) as real >= (1.0 - p.tokens) * 1000000000.0))
  {
    if now >= last {
      var gain := Gain(p.refillRate, now - last);
      GainPerSecond(p.refillRate, now - last);
      GainIsNonnegative(p.refillRate, now - last);
      assert gain >= 1.0 - p.tokens <==> gain * 1000000000.0 >= (1.0 - p.tokens) * 1000000000.0;
    }
  }

  /** A suppressed event would have overfilled some interval. */
  lemma FullInterval(p: Policy, ts: seq<Instant>, j: nat) returns (k: nat)
    requires p.Fresh() && p.TokenBucket? && j < |ts| && DecisionAt(p, ts, j) == Suppress
    ensures k <= j && AllowedIn(Decisions(p, ts), k, j) as real + 1.0 > Ceiling(p, ts, k, j)
  {
    AllowedIffAdmissible(p, ts, j);
    k :| 0 <= k <= j && !(AllowedIn(Decisions(p, ts), k, j) as real + 1.0 <= Ceiling(p, ts, k, j));
  }

  /**
   Optimality: any other way of deciding the same events that respects every ceiling has let through, at
   every point of the trace, no more events than the bucket.
  */
  lemma {:induction false} BucketAdmitsMost(p: Policy, ts: seq<Instant>, ds: seq<Decision>, n: nat)
    requires p.Fresh() && p.TokenBucket? && |ds| == |ts| && n <= |ts|
    requires forall i, j | 0 <= i <= j < |ts| :: AllowedIn(ds, i, j + 1) as real <= Ceiling(p, ts, i, j)
    ensures forall m | 0 <= m <= n :: AllowedIn(ds, 0, m) <= AllowedIn(Decisions(p, ts), 0, m)
  {
    if n > 0 {
      BucketAdmitsMost(p, ts, ds, n - 1);
      var bucket := Decisions(p, ts);
      if ds[n - 1] == Allow && bucket[n - 1] == Suppress {
        var k := FullInterval(p, ts, n - 1);
        assert AllowedIn(ds, k, n) as real <= Ceiling(p, ts, k, n - 1);
        AllowedInSplits(bucket, 0, k, n - 1);
        AllowedInSplits(ds, 0, k, n - 1);
      }
    }
  }
}

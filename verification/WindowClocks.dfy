/**
 The sliding window under a clock that may step back: which configurations and trace lengths still keep the
 bound, exactly.
*/
module WindowClocks {
  import opened Machine
  import opened Policies
  import opened TimeWindowTheory

  /** No timestamp is more than `d` before its predecessor. */
  ghost predicate StepsBackAtMost(ts: seq<Instant>, d: nat) {
    forall i | 0 < i < |ts| :: ts[i] >= ts[i - 1] - d
  }

  lemma {:induction false} NoStepBackIsMonotone(ts: seq<Instant>, i: nat, j: nat)
    requires StepsBackAtMost(ts, 0) && i <= j < |ts|
    ensures ts[i] <= ts[j]
  {
    if i < j {
      NoStepBackIsMonotone(ts, i, j - 1);
    }
  }

  // ---- A limit of one needs no order ----

  /** The deque holds the last allowed event, if any, and every earlier one is more than a window before it. */
  lemma {:induction false} SingleSlot(p: Policy, ts: seq<Instant>, n: nat, a: Instant)
    requires p.Fresh() && p.TimeWindow? && p.maxEvents == 1 && n <= |ts|
    ensures var q := After(p, ts, n);
            var within := AllowedWithin(Decisions(p, ts), ts, n, a, a + p.window);
            && q.TimeWindow? && q.maxEvents == 1 && q.window == p.window && |q.stamps| <= 1
            && within <= 1
            && (within == 1 ==> |q.stamps| == 1 && q.stamps[0] >= a)
  {
    if n > 0 {
      SingleSlot(p, ts, n - 1, a);
      var q := After(p, ts, n - 1);
      if |q.stamps| == 1 {
        assert q.stamps[1..] == [];
        assert Expire(q.stamps[1..], ts[n - 1], p.window) == [];
      }
    }
  }

  lemma OneEventBounded(p: Policy, ts: seq<Instant>)
    requires p.Fresh() && p.TimeWindow? && p.maxEvents == 1
    ensures Bounded(p, ts, Decisions(p, ts))
  {
    forall n, a, b | 0 <= n <= |ts| && b == a + p.window
      ensures AllowedWithin(Decisions(p, ts), ts, n, a, b) <= p.maxEvents
    {
      SingleSlot(p, ts, n, a);
    }
  }

  // ---- Too few events to go wrong ----

  lemma {:induction false} WithinIsAll(ds: seq<Decision>, ts: seq<Instant>, n: nat, a: Instant, b: Instant)
    requires n <= |ds| == |ts|
    ensures AllowedWithin(ds, ts, n, a, b) <= n
    ensures AllowedWithin(ds, ts, n, a, b) == n ==> forall i | 0 <= i < n :: ds[i] == Allow && a <= ts[i] <= b
  {
    if n > 0 {
      WithinIsAll(ds, ts, n - 1, a, b);
    }
  }

  /** Events that lie in one window fill the deque in order. */
  lemma {:induction false} OneWindowFills(p: Policy, ts: seq<Instant>, n: nat, a: Instant)
    requires p.Fresh() && p.TimeWindow? && n <= |ts| && n <= p.maxEvents
    requires forall i | 0 <= i < n :: a <= ts[i] <= a + p.window
    ensures After(p, ts, n) == TimeWindow(p.maxEvents, p.window, ts[..n])
  {
    if n > 0 {
      OneWindowFills(p, ts, n - 1, a);
      assert Expire(ts[..n - 1], ts[n - 1], p.window) == ts[..n - 1];
      assert ts[..n] == ts[..n - 1] + [ts[n - 1]];
    }
  }

  lemma OneMoreIsSuppressed(p: Policy, ts: seq<Instant>, a: Instant)
    requires p.Fresh() && p.TimeWindow? && p.maxEvents < |ts|
    requires forall i | 0 <= i <= p.maxEvents :: a <= ts[i] <= a + p.window
    ensures DecisionAt(p, ts, p.maxEvents) == Suppress
  {
    var k := p.maxEvents;
    OneWindowFills(p, ts, k, a);
    assert Expire(ts[..k], ts[k], p.window) == ts[..k];
  }

  lemma FewEventsBounded(p: Policy, ts: seq<Instant>)
    requires p.Fresh() && p.TimeWindow? && |ts| <= p.maxEvents + 1
    ensures Bounded(p, ts, Decisions(p, ts))
  {
    var ds := Decisions(p, ts);
    forall n, a, b | 0 <= n <= |ts| && b == a + p.window ensures AllowedWithin(ds, ts, n, a, b) <= p.maxEvents {
      WithinIsAll(ds, ts, n, a, b);
      if AllowedWithin(ds, ts, n, a, b) == p.maxEvents + 1 {
        OneMoreIsSuppressed(p, ts, a);
      }
    }
  }

  // ---- One nanosecond back is enough ----

  /** `k` events at once, one just after they expired, and then the clock steps back by a nanosecond. */
  ghost function Overfull(k: nat, window: nat, n: nat): (ts: seq<Instant>)
    ensures |ts| == n
  {
    seq(n, i => if i < k then 0 else if i == k then window + 1 else window)
  }

  lemma {:induction false} ExpireAll(stamps: seq<Instant>, now: Instant, window: nat)
    requires forall i | 0 <= i < |stamps| :: SaturatingSince(now, stamps[i]) > window
    ensures Expire(stamps, now, window) == []
  {
    if stamps != [] {
      ExpireAll(stamps[1..], now, window);
    }
  }

  lemma {:induction false} AllWithin(ds: seq<Decision>, ts: seq<Instant>, n: nat, a: Instant, b: Instant)
    requires n <= |ds| == |ts| && forall i | 0 <= i < n :: ds[i] == Allow && a <= ts[i] <= b
    ensures AllowedWithin(ds, ts, n, a, b) == n
  {
    if n > 0 {
      AllWithin(ds, ts, n - 1, a, b);
    }
  }

  lemma FirstOnesAllowed(p: Policy, ts: seq<Instant>, i: nat)
    requires p.Fresh() && p.TimeWindow? && i < p.maxEvents && i < |ts|
    requires forall j | 0 <= j <= i :: ts[j] == 0
    ensures DecisionAt(p, ts, i) == Allow
  {
    OneWindowFills(p, ts, i, 0);
  }

  lemma StepBackOverfills(p: Policy, n: nat)
    requires p.Fresh() && p.TimeWindow? && p.maxEvents >= 2 && n >= p.maxEvents + 2
    ensures var ts := Overfull(p.maxEvents, p.window, n); !Bounded(p, ts, Decisions(p, ts))
  {
    var k, w := p.maxEvents, p.window;
    var ts := Overfull(k, w, n);
    var ds := Decisions(p, ts);
    forall i | 0 <= i < k ensures ds[i] == Allow {
      FirstOnesAllowed(p, ts, i);
    }
    OneWindowFills(p, ts, k, 0);
    ExpireAll(ts[..k], ts[k], w);
    assert After(p, ts, k + 1) == TimeWindow(k, w, [w + 1]);
    assert Expire([w + 1], ts[k + 1], w) == [w + 1];
    assert ds[k + 1] == Allow;
    AllWithin(ds, ts, k, 0, w);
    assert AllowedWithin(ds, ts, k + 1, 0, w) == k;
    assert AllowedWithin(ds, ts, k + 2, 0, 0 + w) == k + 1;
  }

  // ---- Exactly when ----

  /**
   For a clock that steps back by at most `d` at a time, every trace of `n` events keeps the bound if and only
   if the clock never steps back, or the limit is one, or the trace is too short.
  */
  lemma WindowClockExactly(p: Policy, n: nat, d: nat)
    requires p.Fresh() && p.TimeWindow?
    ensures (forall ts: seq<Instant> | |ts| == n && StepsBackAtMost(ts, d) :: Bounded(p, ts, Decisions(p, ts)))
       <==> d == 0 || p.maxEvents == 1 || n <= p.maxEvents + 1
  {
    if d == 0 || p.maxEvents == 1 || n <= p.maxEvents + 1 {
      forall ts: seq<Instant> | |ts| == n && StepsBackAtMost(ts, d) ensures Bounded(p, ts, Decisions(p, ts)) {
        if p.maxEvents == 1 {
          OneEventBounded(p, ts);
        } else if n <= p.maxEvents + 1 {
          FewEventsBounded(p, ts);
        } else {
          forall i, j | 0 <= i <= j < |ts| ensures ts[i] <= ts[j] {
            NoStepBackIsMonotone(ts, i, j);
          }
          EveryWindowBounded(p, ts);
        }
      }
    } else {
      StepBackOverfills(p, n);
      assert StepsBackAtMost(Overfull(p.maxEvents, p.window, n), d);
    }
  }
}

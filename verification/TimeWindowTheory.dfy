/**
 The sliding window over whole traces with nondecreasing timestamps: the deque refines "the allowed events
 no older than the window", no closed interval of the window's length holds more than `maxEvents` allowed
 events, and no other way of deciding that respects this admits more.
*/
module TimeWindowTheory {
  import opened Machine
  import opened Policies

  /** The timestamps of the allowed events among the first `n`. */
  ghost function AllowedStamps(ds: seq<Decision>, ts: seq<Instant>, n: nat): (s: seq<Instant>)
    requires n <= |ds| == |ts|
    ensures |s| == AllowedIn(ds, 0, n)
  {
    if n == 0 then []
    else AllowedStamps(ds, ts, n - 1) + if ds[n - 1] == Allow then [ts[n - 1]] else []
  }

  /** The reference form of expiry: keep what is no older than the window, wherever it stands. */
  ghost function Recent(stamps: seq<Instant>, now: Instant, window: nat): (r: seq<Instant>)
    ensures |r| <= |stamps|
  {
    if stamps == [] then []
    else (if now - stamps[0] <= window then [stamps[0]] else []) + Recent(stamps[1..], now, window)
  }

  lemma {:induction false} RecentAppend(s: seq<Instant>, x: Instant, now: Instant, window: nat)
    ensures Recent(s + [x], now, window) == Recent(s, now, window) + if now - x <= window then [x] else []
  {
    if s != [] {
      assert (s + [x])[1..] == s[1..] + [x];
      RecentAppend(s[1..], x, now, window);
    }
  }

  lemma {:induction false} RecentKeepsAll(s: seq<Instant>, now: Instant, window: nat)
    requires forall i | 0 <= i < |s| :: now - s[i] <= window
    ensures Recent(s, now, window) == s
  {
    if s != [] {
      assert Recent(s, now, window) == [s[0]] + Recent(s[1..], now, window);
      RecentKeepsAll(s[1..], now, window);
    }
  }

  /** On an ordered deque, popping old fronts is filtering; and expiring in stages loses nothing. */
  lemma {:induction false} ExpireIsRecent(s: seq<Instant>, t: Instant, now: Instant, window: nat)
    requires Nondecreasing(s) && t <= now && forall i | 0 <= i < |s| :: s[i] <= t
    ensures Expire(Recent(s, t, window), now, window) == Recent(s, now, window)
  {
    if s != [] {
      var tail := s[1..];
      assert Nondecreasing(tail);
      ExpireIsRecent(tail, t, now, window);
      if t - s[0] <= window {
        forall i | 0 <= i < |s| ensures t - s[i] <= window {
          assert s[0] <= s[i];
        }
        RecentKeepsAll(s, t, window);
        RecentKeepsAll(tail, t, window);
        assert Recent(tail, t, window) == tail;
        if now - s[0] <= window {
          forall i | 0 <= i < |s| ensures now - s[i] <= window {
            assert s[0] <= s[i];
          }
          RecentKeepsAll(s, now, window);
        } else {
          assert Recent(s, now, window) == Recent(tail, now, window);
        }
      } else {
        assert Recent(s, t, window) == Recent(tail, t, window);
        assert Recent(s, now, window) == Recent(tail, now, window);
      }
    }
  }

  lemma {:induction false} AllowedStampsOrdered(ds: seq<Decision>, ts: seq<Instant>, n: nat)
    requires n <= |ds| == |ts| && Nondecreasing(ts)
    ensures Nondecreasing(AllowedStamps(ds, ts, n))
    ensures n > 0 ==> forall i | 0 <= i < |AllowedStamps(ds, ts, n)| :: AllowedStamps(ds, ts, n)[i] <= ts[n - 1]
  {
    if n > 0 {
      AllowedStampsOrdered(ds, ts, n - 1);
    }
  }

  /** How many allowed events event `j` still finds in its window. */
  ghost function InWindow(p: Policy, ts: seq<Instant>, ds: seq<Decision>, j: nat): nat
    requires p.TimeWindow? && |ds| == |ts| && j < |ts|
  {
    |Recent(AllowedStamps(ds, ts, j), ts[j], p.window)|
  }

  /** The deque is exactly the suffix of the allowed events no older than the window. */
  lemma {:induction false} DequeIsRecentAllowed(p: Policy, ts: seq<Instant>, j: nat)
    requires p.Fresh() && p.TimeWindow? && j < |ts| && Nondecreasing(ts)
    ensures After(p, ts, j).TimeWindow? && After(p, ts, j).window == p.window
    ensures Expire(After(p, ts, j).stamps, ts[j], p.window)
         == Recent(AllowedStamps(Decisions(p, ts), ts, j), ts[j], p.window)
  {
    AfterKeepsValid(p, ts, j);
    if j > 0 {
      var allowed := AllowedStamps(Decisions(p, ts), ts, j - 1);
      DequeIsRecentAllowed(p, ts, j - 1);
      AfterKeepsValid(p, ts, j - 1);
      RecentAppend(allowed, ts[j - 1], ts[j - 1], p.window);
      assert allowed + [] == allowed;
      assert After(p, ts, j).stamps
          == Recent(AllowedStamps(Decisions(p, ts), ts, j), ts[j - 1], p.window);
      AllowedStampsOrdered(Decisions(p, ts), ts, j);
      ExpireIsRecent(AllowedStamps(Decisions(p, ts), ts, j), ts[j - 1], ts[j], p.window);
    }
  }

  /** An event is suppressed exactly when `maxEvents` allowed events are still in its window. */
  lemma SuppressedIffWindowFull(p: Policy, ts: seq<Instant>, j: nat)
    requires p.Fresh() && p.TimeWindow? && j < |ts| && Nondecreasing(ts)
    ensures InWindow(p, ts, Decisions(p, ts), j) <= p.maxEvents
    ensures DecisionAt(p, ts, j) == Suppress <==> InWindow(p, ts, Decisions(p, ts), j) == p.maxEvents
  {
    AfterKeepsValid(p, ts, j);
    DequeIsRecentAllowed(p, ts, j);
  }

  ghost predicate CountsAt(p: Policy, ts: seq<Instant>, ds: seq<Decision>, j: nat)
    requires p.TimeWindow? && |ds| == |ts| && j < |ts|
  {
    ds[j] == Allow <==> InWindow(p, ts, ds, j) < p.maxEvents
  }

  /** The reference policy: no deque, only past decisions. */
  ghost predicate CountsWindow(p: Policy, ts: seq<Instant>, ds: seq<Decision>)
    requires p.TimeWindow?
  {
    && |ds| == |ts|
    && forall j {:trigger CountsAt(p, ts, ds, j)} | 0 <= j < |ts| :: CountsAt(p, ts, ds, j)
  }

  lemma {:induction false} AllowedStampsAgree(ds: seq<Decision>, es: seq<Decision>, ts: seq<Instant>, n: nat)
    requires n <= |ds| == |es| == |ts| && forall j | 0 <= j < n :: ds[j] == es[j]
    ensures AllowedStamps(ds, ts, n) == AllowedStamps(es, ts, n)
  {
    if n > 0 {
      AllowedStampsAgree(ds, es, ts, n - 1);
    }
  }

  lemma SameStampsSameWindow(p: Policy, ts: seq<Instant>, ds: seq<Decision>, es: seq<Decision>, j: nat)
    requires p.TimeWindow? && j < |ds| == |es| == |ts| && forall i | 0 <= i < j :: ds[i] == es[i]
    ensures InWindow(p, ts, ds, j) == InWindow(p, ts, es, j)
  {
    AllowedStampsAgree(ds, es, ts, j);
  }

  lemma {:induction false} CountsWindowIsUnique(p: Policy, ts: seq<Instant>, ds: seq<Decision>, es: seq<Decision>,
                                                n: nat)
    requires p.TimeWindow? && n <= |ts| && CountsWindow(p, ts, ds) && CountsWindow(p, ts, es)
    ensures forall j | 0 <= j < n :: ds[j] == es[j]
  {
    if n > 0 {
      CountsWindowIsUnique(p, ts, ds, es, n - 1);
      SameStampsSameWindow(p, ts, ds, es, n - 1);
      assert CountsAt(p, ts, ds, n - 1) && CountsAt(p, ts, es, n - 1);
    }
  }

  /** The deque refines the reference policy, and nothing else does. */
  lemma WindowRefinesCounting(p: Policy, ts: seq<Instant>, ds: seq<Decision>)
    requires p.Fresh() && p.TimeWindow? && Nondecreasing(ts)
    ensures ds == Decisions(p, ts) <==> CountsWindow(p, ts, ds)
  {
    var deque := Decisions(p, ts);
    forall j | 0 <= j < |ts| ensures CountsAt(p, ts, deque, j) {
      SuppressedIffWindowFull(p, ts, j);
    }
    if CountsWindow(p, ts, ds) {
      CountsWindowIsUnique(p, ts, ds, deque, |ts|);
    }
  }

  /** Allowed events among the first `n` with a timestamp in the closed interval `[a, b]`. */
  ghost function AllowedWithin(ds: seq<Decision>, ts: seq<Instant>, n: nat, a: Instant, b: Instant): nat
    requires n <= |ds| == |ts|
  {
    if n == 0 then 0
    else AllowedWithin(ds, ts, n - 1, a, b) + if ds[n - 1] == Allow && a <= ts[n - 1] <= b then 1 else 0
  }

  lemma {:induction false} WithinIsRecent(ds: seq<Decision>, ts: seq<Instant>, n: nat, a: Instant, b: Instant,
                                          now: Instant, window: nat)
    requires n <= |ds| == |ts| && now - window <= a
    ensures AllowedWithin(ds, ts, n, a, b) <= |Recent(AllowedStamps(ds, ts, n), now, window)|
  {
    if n > 0 {
      WithinIsRecent(ds, ts, n - 1, a, b, now, window);
      RecentAppend(AllowedStamps(ds, ts, n - 1), ts[n - 1], now, window);
      assert AllowedStamps(ds, ts, n - 1) + [] == AllowedStamps(ds, ts, n - 1);
    }
  }

  /** No closed interval of the window's length holds more than `maxEvents` allowed events. */
  ghost predicate Bounded(p: Policy, ts: seq<Instant>, ds: seq<Decision>)
    requires p.TimeWindow? && |ds| == |ts|
  {
    forall n, a, b | 0 <= n <= |ts| && b == a + p.window :: AllowedWithin(ds, ts, n, a, b) <= p.maxEvents
  }

  /** Every closed interval of the window's length contains at most `maxEvents` allowed events. */
  lemma EveryWindowBounded(p: Policy, ts: seq<Instant>)
    requires p.Fresh() && p.TimeWindow? && Nondecreasing(ts)
    ensures Bounded(p, ts, Decisions(p, ts))
  {
    forall n, a, b | 0 <= n <= |ts| && b == a + p.window
      ensures AllowedWithin(Decisions(p, ts), ts, n, a, b) <= p.maxEvents
    {
      OneWindowBounded(p, ts, n, a);
    }
  }

  /** An event that is allowed found fewer than `maxEvents` allowed events since any start of its window. */
  lemma RoomForOneMore(p: Policy, ts: seq<Instant>, j: nat, a: Instant, b: Instant)
    requires p.Fresh() && p.TimeWindow? && j < |ts| && Nondecreasing(ts)
    requires DecisionAt(p, ts, j) == Allow && ts[j] - p.window <= a
    ensures AllowedWithin(Decisions(p, ts), ts, j, a, b) < p.maxEvents
  {
    SuppressedIffWindowFull(p, ts, j);
    WithinIsRecent(Decisions(p, ts), ts, j, a, b, ts[j], p.window);
  }

  lemma {:induction false} OneWindowBounded(p: Policy, ts: seq<Instant>, n: nat, a: Instant)
    requires p.Fresh() && p.TimeWindow? && n <= |ts| && Nondecreasing(ts)
    ensures AllowedWithin(Decisions(p, ts), ts, n, a, a + p.window) <= p.maxEvents
  {
    if n > 0 {
      OneWindowBounded(p, ts, n - 1, a);
      if DecisionAt(p, ts, n - 1) == Allow && ts[n - 1] <= a + p.window {
        RoomForOneMore(p, ts, n - 1, a, a + p.window);
      }
    }
  }

  /** Where the window of a time `now` begins in an ordered trace. */
  lemma {:induction false} WindowStart(ds: seq<Decision>, ts: seq<Instant>, n: nat, now: Instant, window: nat)
    returns (i: nat)
    requires n <= |ds| == |ts| && Nondecreasing(ts) && forall k | 0 <= k < n :: ts[k] <= now
    ensures i <= n && |Recent(AllowedStamps(ds, ts, n), now, window)| == AllowedIn(ds, i, n)
    ensures forall k | 0 <= k < n :: now - window <= ts[k] <==> i <= k
  {
    if n == 0 {
      i := 0;
    } else {
      i := WindowStart(ds, ts, n - 1, now, window);
      RecentAppend(AllowedStamps(ds, ts, n - 1), ts[n - 1], now, window);
      assert AllowedStamps(ds, ts, n - 1) + [] == AllowedStamps(ds, ts, n - 1);
      if now - ts[n - 1] > window {
        i := n;
        if n > 1 {
          assert ts[n - 2] <= ts[n - 1];
        }
      }
    }
  }

  lemma {:induction false} WithinFrom(ds: seq<Decision>, ts: seq<Instant>, i: nat, n: nat, a: Instant, b: Instant)
    requires i <= n <= |ds| == |ts| && forall k | i <= k < n :: a <= ts[k] <= b
    ensures AllowedWithin(ds, ts, n, a, b) >= AllowedIn(ds, i, n)
    decreases n
  {
    if i < n {
      WithinFrom(ds, ts, i, n - 1, a, b);
    }
  }

  /** Where the window suppresses an event, it has admitted its fill since the start of that event's window. */
  lemma FullSince(p: Policy, ts: seq<Instant>, j: nat) returns (i: nat)
    requires p.Fresh() && p.TimeWindow? && j < |ts| && Nondecreasing(ts) && DecisionAt(p, ts, j) == Suppress
    ensures i <= j && AllowedIn(Decisions(p, ts), i, j) == p.maxEvents
    ensures forall k | i <= k <= j :: ts[j] - p.window <= ts[k] <= ts[j]
  {
    SuppressedIffWindowFull(p, ts, j);
    i := WindowStart(Decisions(p, ts), ts, j, ts[j], p.window);
  }

  /** A bounded way of deciding that admits the last event of a window has admitted fewer before it. */
  lemma NotFullBefore(p: Policy, ts: seq<Instant>, ds: seq<Decision>, i: nat, j: nat)
    requires p.TimeWindow? && i <= j < |ds| == |ts| && Bounded(p, ts, ds) && ds[j] == Allow
    requires forall k | i <= k <= j :: ts[j] - p.window <= ts[k] <= ts[j]
    ensures AllowedIn(ds, i, j) < p.maxEvents
  {
    WithinFrom(ds, ts, i, j + 1, ts[j] - p.window, ts[j]);
  }

  /** Not ahead up to `i`, and strictly behind from there to `j`, is strictly behind up to `j`. */
  lemma BehindAcross(ds: seq<Decision>, own: seq<Decision>, i: nat, j: nat)
    requires i <= j <= |ds| == |own|
    requires AllowedIn(ds, 0, i) <= AllowedIn(own, 0, i) && AllowedIn(ds, i, j) < AllowedIn(own, i, j)
    ensures AllowedIn(ds, 0, j) < AllowedIn(own, 0, j)
  {
    AllowedInSplits(ds, 0, i, j);
    AllowedInSplits(own, 0, i, j);
  }

  /** Optimality: deciding the same events under the same bound never lets more through. */
  lemma {:induction false} WindowAdmitsMost(p: Policy, ts: seq<Instant>, ds: seq<Decision>, n: nat)
    requires p.Fresh() && p.TimeWindow? && n <= |ds| == |ts| && Nondecreasing(ts) && Bounded(p, ts, ds)
    ensures AllowedIn(ds, 0, n) <= AllowedIn(Decisions(p, ts), 0, n)
  {
    if n > 0 {
      WindowAdmitsMost(p, ts, ds, n - 1);
      if ds[n - 1] == Allow && DecisionAt(p, ts, n - 1) == Suppress {
        var i := FullSince(p, ts, n - 1);
        WindowAdmitsMost(p, ts, ds, i);
        NotFullBefore(p, ts, ds, i, n - 1);
        BehindAcross(ds, Decisions(p, ts), i, n - 1);
      }
    }
  }
}

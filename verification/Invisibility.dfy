/**
 Which policies are blind to the events they suppress: deleting suppressed events from a trace leaves every
 remaining decision as it was. For each policy the answer is exact in the length of the trace.
*/
module Invisibility {
  import opened Wrappers
  import opened Machine
  import opened Policies
  import opened CountingTheory

  /** The elements whose flag is set. */
  ghost function Select<T>(xs: seq<T>, keep: seq<bool>): (r: seq<T>)
    requires |xs| == |keep|
    ensures |r| <= |xs|
    ensures forall x | x in r :: x in xs
  {
    if xs == [] then [] else (if keep[0] then [xs[0]] else []) + Select(xs[1..], keep[1..])
  }

  ghost predicate DropsOnlySuppressed(p: Policy, ts: seq<Instant>, keep: seq<bool>) {
    |keep| == |ts| && forall i | 0 <= i < |ts| && !keep[i] :: Decisions(p, ts)[i] == Suppress
  }

  /** The events left in the trace get the decisions they got in the whole trace. */
  ghost predicate Undisturbed(p: Policy, ts: seq<Instant>, keep: seq<bool>)
    requires |keep| == |ts|
  {
    Decisions(p, Select(ts, keep)) == Select(Decisions(p, ts), keep)
  }

  /** Suppressed events have no later effect in any trace of this length. */
  ghost predicate SuppressedAreInvisible(p: Policy, length: nat) {
    forall ts: seq<Instant>, keep: seq<bool>
      | |ts| == length && Nondecreasing(ts) && DropsOnlySuppressed(p, ts, keep) :: Undisturbed(p, ts, keep)
  }

  // ---- The bisimulation ----

  /** `q`, which has not seen some suppressed events, and `p`, which has, will decide alike from `now` on. */
  ghost predicate Alike(p: Policy, q: Policy, now: Instant, room: nat) {
    match (p, q)
    case (CountBased(m, a), CountBased(m', b)) =>
      m == m' && b <= a && a + room <= U64_MAX && (b == a || b >= m)
    case (TimeWindow(k, w, s), TimeWindow(k', w', s')) =>
      k == k' && w == w' && forall u | now <= u :: Expire(s, u, w) == Expire(s', u, w)
    case (TokenBucket(c, r, _, last), TokenBucket(c', r', _, last')) =>
      && p.Valid() && q.Valid() && c == c' && r == r'
      && (last.Some? ==> last.value <= now) && (last'.Some? ==> last'.value <= now)
      && forall u | now <= u :: Refill(p, u).tokens == Refill(q, u).tokens
    case _ => false
  }

  lemma {:induction false} ExpireTwice(s: seq<Instant>, t: Instant, u: Instant, window: nat)
    requires t <= u
    ensures Expire(Expire(s, t, window), u, window) == Expire(s, u, window)
    decreases |s|
  {
    if |s| > 0 && SaturatingSince(t, s[0]) > window {
      ExpireTwice(s[1..], t, u, window);
    }
  }

  lemma RefillTwice(p: Policy, t: Instant, u: Instant)
    requires p.TokenBucket? && p.Valid() && t <= u && (p.lastRefill.Some? ==> p.lastRefill.value <= t)
    ensures Refill(Refill(p, t), u).tokens == if p.lastRefill.Some? then Refill(p, u).tokens
                                              else MinReal(p.tokens + Gain(p.refillRate, u - t), p.capacity)
  {
    if p.lastRefill.Some? {
      var last := p.lastRefill.value;
      GainIsAdditive(p.refillRate, t - last, u - t);
      assert (t - last) + (u - t) == u - last;
      GainIsNonnegative(p.refillRate, u - t);
    }
  }

  /** Seeing a suppressed event changes nothing that matters later. */
  lemma SkipKeepsAlike(p: Policy, q: Policy, now: Instant, t: Instant, room: nat)
    requires Alike(p, q, now, room + 1) && now <= t && Register(p, t).1 == Suppress
    requires FullUntilUsed(p)
    ensures Alike(Register(p, t).0, q, t, room)
  {
    var p' := Register(p, t).0;
    match p {
      case CountBased(_, _) =>
      case TimeWindow(_, w, s) =>
        forall u | t <= u ensures Expire(p'.stamps, u, w) == Expire(q.stamps, u, w) {
          ExpireTwice(s, t, u, w);
        }
      case TokenBucket(c, r, _, last) =>
        RegisterKeepsValid(p, t);
        forall u | t <= u ensures Refill(p', u).tokens == Refill(q, u).tokens {
          RefillTwice(p, t, u);
          GainIsNonnegative(r, u - t);
          assert Refill(p, u).tokens == Refill(q, u).tokens;
        }
      case _ =>
    }
  }

  /** Both decide a kept event alike and stay alike. */
  lemma KeepKeepsAlike(p: Policy, q: Policy, now: Instant, t: Instant, room: nat)
    requires Alike(p, q, now, room + 1) && now <= t
    ensures Register(p, t).1 == Register(q, t).1
    ensures Alike(Register(p, t).0, Register(q, t).0, t, room)
  {
    if p.TokenBucket? {
      RegisterKeepsValid(p, t);
      RegisterKeepsValid(q, t);
      assert Refill(p, t).tokens == Refill(q, t).tokens;
    }
  }

  /** A bucket that was never refilled is full. */
  ghost predicate FullUntilUsed(p: Policy) {
    p.TokenBucket? && p.lastRefill == None ==> p.tokens == p.capacity
  }

  lemma {:induction false} AlikeRunsAgree(p: Policy, q: Policy, now: Instant, ts: seq<Instant>, keep: seq<bool>)
    requires Alike(p, q, now, |ts|) && FullUntilUsed(p)
    requires DropsOnlySuppressed(p, ts, keep) && Nondecreasing(ts)
    requires forall i | 0 <= i < |ts| :: now <= ts[i]
    ensures Decisions(q, Select(ts, keep)) == Select(Decisions(p, ts), keep)
    decreases |ts|
  {
    if ts != [] {
      var t, p' := ts[0], Register(p, ts[0]).0;
      DecisionsCons(p, ts);
      assert Decisions(p, ts)[1..] == Decisions(p', ts[1..]);
      forall i | 0 <= i < |ts[1..]| && !keep[1..][i] ensures Decisions(p', ts[1..])[i] == Suppress {
        assert Decisions(p, ts)[i + 1] == Decisions(p, ts)[1..][i];
      }
      if keep[0] {
        KeepKeepsAlike(p, q, now, t, |ts| - 1);
        AlikeRunsAgree(p', Register(q, t).0, t, ts[1..], keep[1..]);
        assert Select(ts, keep)[1..] == Select(ts[1..], keep[1..]);
        DecisionsCons(q, Select(ts, keep));
      } else {
        assert Register(p, t).1 == Decisions(p, ts)[0];
        SkipKeepsAlike(p, q, now, t, |ts| - 1);
        AlikeRunsAgree(p', q, t, ts[1..], keep[1..]);
        assert Select(ts, keep) == Select(ts[1..], keep[1..]);
      }
    }
  }

  // ---- The exact answer ----

  lemma {:induction false} SelectAll<T>(xs: seq<T>, keep: seq<bool>)
    requires |xs| == |keep| && forall i | 0 <= i < |keep| :: keep[i]
    ensures Select(xs, keep) == xs
  {
    if xs != [] {
      SelectAll(xs[1..], keep[1..]);
      assert Select(xs, keep) == [xs[0]] + xs[1..];
    }
  }

  ghost function AllBut(length: nat, d: nat): (keep: seq<bool>)
    ensures |keep| == length
  {
    seq(length, i => i != d)
  }

  lemma {:induction false} SelectAllBut<T>(xs: seq<T>, d: nat)
    requires d < |xs|
    ensures Select(xs, AllBut(|xs|, d)) == xs[..d] + xs[d + 1..]
  {
    var keep := AllBut(|xs|, d);
    if d == 0 {
      SelectAll(xs[1..], keep[1..]);
    } else {
      assert keep[1..] == AllBut(|xs[1..]|, d - 1);
      SelectAllBut(xs[1..], d - 1);
      assert xs[..d] == [xs[0]] + xs[1..][..d - 1];
    }
  }

  ghost function Zeros(n: nat): (ts: seq<Instant>)
    ensures |ts| == n && forall i | 0 <= i < n :: ts[i] == 0
  {
    seq(n, _ => 0)
  }

  /** Dropping event `d` moves the decision of event `i` one place forward; if that changes it, we are done. */
  lemma DropChangesDecision(p: Policy, length: nat, d: nat, i: nat)
    requires d < i < length
    requires DecisionAt(p, Zeros(length), d) == Suppress
    requires DecisionAt(p, Zeros(length), i) != DecisionAt(p, Zeros(length - 1), i - 1)
    ensures !SuppressedAreInvisible(p, length)
  {
    var ts, us, keep := Zeros(length), Zeros(length - 1), AllBut(length, d);
    SelectAllBut(ts, d);
    SelectAllBut(Decisions(p, ts), d);
    assert Select(ts, keep) == us;
    assert Decisions(p, us)[i - 1] != Select(Decisions(p, ts), keep)[i - 1];
    assert DropsOnlySuppressed(p, ts, keep) && !Undisturbed(p, ts, keep);
  }

  lemma CountInvisibility(p: Policy, length: nat)
    requires p.CountBased? && p.Fresh()
    ensures SuppressedAreInvisible(p, length) <==> length < MODULUS || p.maxCount == U64_MAX
  {
    if p.maxCount == U64_MAX {
      forall ts: seq<Instant>, keep: seq<bool>
        | |ts| == length && Nondecreasing(ts) && DropsOnlySuppressed(p, ts, keep)
        ensures Undisturbed(p, ts, keep)
      {
        forall i | 0 <= i < |ts| ensures keep[i] {
          CountDecision(p, ts, i + 1);
        }
        SelectAll(ts, keep);
        SelectAll(Decisions(p, ts), keep);
      }
    } else if length < MODULUS {
      forall ts: seq<Instant>, keep: seq<bool>
        | |ts| == length && Nondecreasing(ts) && DropsOnlySuppressed(p, ts, keep)
        ensures Undisturbed(p, ts, keep)
      {
        AlikeRunsAgree(p, p, if ts == [] then 0 else ts[0], ts, keep);
      }
    } else {
      CountDecision(p, Zeros(length), p.maxCount + 1);
      CountDecision(p, Zeros(length), MODULUS);
      CountDecision(p, Zeros(length - 1), U64_MAX);
      DropChangesDecision(p, length, p.maxCount, U64_MAX);
    }
  }

  lemma ClockedInvisibility(p: Policy, length: nat)
    requires (p.TimeWindow? || p.TokenBucket?) && p.Fresh()
    ensures SuppressedAreInvisible(p, length)
  {
    forall ts: seq<Instant>, keep: seq<bool>
      | |ts| == length && Nondecreasing(ts) && DropsOnlySuppressed(p, ts, keep)
      ensures Undisturbed(p, ts, keep)
    {
      AlikeRunsAgree(p, p, if ts == [] then 0 else ts[0], ts, keep);
    }
  }

  lemma SmallBackoffDecisions(ts: seq<Instant>)
    ensures forall i | 0 <= i < |ts| && i < 4 :: DecisionAt(NEW_BACKOFF, ts, i) == Allow <==> i != 2
  {
    assert Pow2(0) == 1 && Pow2(1) == 2 && Pow2(2) == 4;
    forall i | 0 <= i < |ts| && i < 4 ensures DecisionAt(NEW_BACKOFF, ts, i) == Allow <==> i != 2 {
      BackoffDecision(ts, i + 1);
      NextPow2(1, 3);
    }
  }

  lemma BackoffInvisibility(length: nat)
    ensures SuppressedAreInvisible(NEW_BACKOFF, length) <==> length < 4
  {
    if length < 4 {
      forall ts: seq<Instant>, keep: seq<bool>
        | |ts| == length && Nondecreasing(ts) && DropsOnlySuppressed(NEW_BACKOFF, ts, keep)
        ensures Undisturbed(NEW_BACKOFF, ts, keep)
      {
        SmallBackoffDecisions(ts);
        if forall i | 0 <= i < |keep| :: keep[i] {
          SelectAll(ts, keep);
          SelectAll(Decisions(NEW_BACKOFF, ts), keep);
        } else {
          assert keep == AllBut(3, 2);
          SelectAllBut(ts, 2);
          SelectAllBut(Decisions(NEW_BACKOFF, ts), 2);
          AfterPrefix(NEW_BACKOFF, ts, ts[..2], 0);
          AfterPrefix(NEW_BACKOFF, ts, ts[..2], 1);
          assert ts[..2] + ts[3..] == ts[..2];
          assert Decisions(NEW_BACKOFF, ts[..2]) == Decisions(NEW_BACKOFF, ts)[..2];
        }
      }
    } else {
      SmallBackoffDecisions(Zeros(length));
      SmallBackoffDecisions(Zeros(length - 1));
      DropChangesDecision(NEW_BACKOFF, length, 2, 3);
    }
  }

  /**
   Suppressed events are invisible to the window and the bucket always, to the count limit until its 64-bit
   counter wraps, and to the backoff only while there is no event after the first suppressed one.
  */
  lemma SuppressedInvisibleExactly(p: Policy, length: nat)
    requires p.Fresh()
    ensures SuppressedAreInvisible(p, length)
       <==> match p
            case CountBased(maxCount, _) => length < MODULUS || maxCount == U64_MAX
            case ExponentialBackoff(_, _) => length < 4
            case _ => true
  {
    match p {
      case CountBased(_, _) => CountInvisibility(p, length);
      case ExponentialBackoff(_, _) => BackoffInvisibility(length);
      case _ => ClockedInvisibility(p, length);
    }
  }
}

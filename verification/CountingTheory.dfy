/**
 The two policies that ignore time: closed forms for the n-th decision of an unbounded run, including the
 saturation of `next_allowed` and the wrap-around of the 64-bit event counters.
*/
module CountingTheory {
  import opened Machine
  import opened Policies

  // ---- Count limit ----

  lemma {:induction false} CountAfter(p: Policy, ts: seq<Instant>, n: nat)
    requires p.CountBased? && p.Fresh() && n <= |ts|
    ensures After(p, ts, n) == CountBased(p.maxCount, n % MODULUS)
  {
    if n > 0 {
      CountAfter(p, ts, n - 1);
      IncrementWraps(n - 1);
    }
  }

  lemma IncrementWraps(n: nat)
    ensures WrappingInc(n % MODULUS) == (n + 1) % MODULUS
  {
    var q, r := n / MODULUS, n % MODULUS;
    assert n == q * MODULUS + r;
    if r + 1 < MODULUS {
      assert (n + 1) / MODULUS == q && (n + 1) % MODULUS == r + 1;
    } else {
      assert n + 1 == (q + 1) * MODULUS;
      assert (n + 1) % MODULUS == 0;
    }
  }

  /** Event number `n`, counting from 1, is allowed exactly when its number modulo 2^64 is in the budget. */
  lemma CountDecision(p: Policy, ts: seq<Instant>, n: nat)
    requires p.CountBased? && p.Fresh() && 1 <= n <= |ts|
    ensures DecisionAt(p, ts, n - 1) == Allow <==> n % MODULUS <= p.maxCount
  {
    CountAfter(p, ts, n - 1);
    IncrementWraps(n - 1);
  }

  lemma LastAllowed(ds: seq<Decision>, n: nat)
    requires 1 <= n <= |ds|
    ensures AllowedIn(ds, 0, n) == AllowedIn(ds, 0, n - 1) + if ds[n - 1] == Allow then 1 else 0
  {
  }

  lemma {:induction false} FirstOnesAllowed(ds: seq<Decision>, m: nat, n: nat)
    requires n <= |ds| && forall i | 0 <= i < n :: ds[i] == Allow <==> i < m
    ensures AllowedIn(ds, 0, n) == Min(n, m)
  {
    if n > 0 {
      FirstOnesAllowed(ds, m, n - 1);
    }
  }

  lemma CountDecisionBeforeWrap(p: Policy, ts: seq<Instant>, n: nat)
    requires p.CountBased? && p.Fresh() && 1 <= n <= |ts| && n < MODULUS
    ensures DecisionAt(p, ts, n - 1) == Allow <==> n <= p.maxCount
  {
    CountDecision(p, ts, n);
    assert n % MODULUS == n;
  }

  /** So, short of 2^64 events, the first `maxCount` are allowed and no other. */
  lemma CountTotal(p: Policy, ts: seq<Instant>, n: nat)
    requires p.CountBased? && p.Fresh() && n <= |ts| && n < MODULUS
    ensures AllowedIn(Decisions(p, ts), 0, n) == Min(n, p.maxCount)
  {
    forall i | 0 <= i < n ensures Decisions(p, ts)[i] == Allow <==> i < p.maxCount {
      CountDecisionBeforeWrap(p, ts, i + 1);
    }
    FirstOnesAllowed(Decisions(p, ts), p.maxCount, n);
  }

  // ---- Exponential backoff ----

  ghost function Pow2(k: nat): (r: nat)
    ensures r > 0
  {
    if k == 0 then 1 else 2 * Pow2(k - 1)
  }

  ghost predicate IsPow2(n: nat) {
    exists k: nat :: n == Pow2(k)
  }

  lemma {:induction false} Pow2Grows(a: nat, b: nat)
    requires a < b
    ensures 2 * Pow2(a) <= Pow2(b)
  {
    if a < b - 1 {
      Pow2Grows(a, b - 1);
    }
  }

  /** The only power of two in `(Pow2(k), 2 * Pow2(k)]` is the upper end. */
  lemma NextPow2(k: nat, n: nat)
    requires Pow2(k) < n <= 2 * Pow2(k)
    ensures IsPow2(n) <==> n == 2 * Pow2(k)
  {
    assert Pow2(k + 1) == 2 * Pow2(k);
    if IsPow2(n) {
      var m: nat :| n == Pow2(m);
      if m < k {
        Pow2Grows(m, k);
      } else if k + 1 < m {
        Pow2Grows(k + 1, m);
      }
    }
  }

  const HALF := 0x8000_0000_0000_0000

  lemma HalfIsPow2()
    ensures Pow2(63) == HALF
  {
    assert Pow2(0) == 1;
    Pow2PlusTwentyOne(0);
    Pow2PlusTwentyOne(21);
    Pow2PlusTwentyOne(42);
  }

  lemma Pow2PlusTwentyOne(k: nat)
    ensures Pow2(k + 21) == 0x20_0000 * Pow2(k)
  {
    Pow2PlusSeven(k);
    Pow2PlusSeven(k + 7);
    Pow2PlusSeven(k + 14);
  }

  lemma Pow2PlusSeven(k: nat)
    ensures Pow2(k + 7) == 128 * Pow2(k)
  {
    assert Pow2(k + 2) == 2 * Pow2(k + 1) == 4 * Pow2(k);
    assert Pow2(k + 4) == 2 * Pow2(k + 3) == 4 * Pow2(k + 2);
    assert Pow2(k + 6) == 2 * Pow2(k + 5) == 4 * Pow2(k + 4);
  }

  /** `next` is the least power of two above `n`; `k` is its exponent less one. */
  ghost predicate LeastPow2Above(next: nat, n: nat, k: nat) {
    if n == 0 then next == 1 else next == 2 * Pow2(k) && Pow2(k) <= n < next
  }

  /** The state after `n` events, for every `n`; `k` is a witness for `LeastPow2Above`. */
  ghost predicate BackoffState(p: Policy, n: nat, k: nat) {
    && p.ExponentialBackoff?
    && p.eventCount == n % MODULUS
    && if n < HALF then k < 63 && LeastPow2Above(p.nextAllowed, n, k) else p.nextAllowed == U64_MAX
  }

  /** Doubling on reaching the power of two, until 2^63 is reached. */
  lemma NextStepBelowHalf(next: nat, n: nat, k: nat) returns (k': nat)
    requires 0 < n < HALF && k < 63 && LeastPow2Above(next, n, k)
    ensures next <= HALF && (n + 1 < HALF ==> k' < 63)
    ensures n + 1 < HALF ==> LeastPow2Above(if n + 1 == next then 2 * next else next, n + 1, k')
    ensures n + 1 == HALF ==> next == HALF
  {
    HalfIsPow2();
    if k + 1 < 63 {
      Pow2Grows(k + 1, 63);
    }
    assert Pow2(k + 1) == 2 * Pow2(k) == next;
    k' := if n + 1 == next then k + 1 else k;
  }

  lemma BackoffStepBelowHalf(p: Policy, n: nat, k: nat, now: Instant) returns (k': nat)
    requires 0 < n < HALF && BackoffState(p, n, k)
    ensures BackoffState(Register(p, now).0, n + 1, k')
  {
    k' := NextStepBelowHalf(p.nextAllowed, n, k);
    assert n % MODULUS == n && (n + 1) % MODULUS == n + 1;
  }

  lemma BackoffStep(p: Policy, n: nat, k: nat, now: Instant) returns (k': nat)
    requires BackoffState(p, n, k)
    ensures BackoffState(Register(p, now).0, n + 1, k')
  {
    k' := 0;
    IncrementWraps(n);
    if n == 0 {
      assert Pow2(0) == 1;
    } else if n < HALF {
      k' := BackoffStepBelowHalf(p, n, k, now);
    }
  }

  lemma {:induction false} BackoffAfter(ts: seq<Instant>, n: nat) returns (k: nat)
    requires n <= |ts|
    ensures BackoffState(After(NEW_BACKOFF, ts, n), n, k)
  {
    k := 0;
    if n > 0 {
      var k' := BackoffAfter(ts, n - 1);
      k := BackoffStep(After(NEW_BACKOFF, ts, n - 1), n - 1, k', ts[n - 1]);
    }
  }

  /**
   Event number `n` is allowed exactly when `n` is a power of two; the two exceptions are what saturation
   and wrap-around leave behind: from 2^64 - 1 on, the allowed numbers are those one short of a multiple of
   2^64.
  */
  lemma BackoffDecision(ts: seq<Instant>, n: nat)
    requires 1 <= n <= |ts|
    ensures DecisionAt(NEW_BACKOFF, ts, n - 1) == Allow
       <==> if n < U64_MAX then IsPow2(n) else n % MODULUS == U64_MAX
  {
    var k := BackoffAfter(ts, n - 1);
    IncrementWraps(n - 1);
    HalfIsPow2();
    if n == 1 {
      assert Pow2(0) == 1;
    } else if n - 1 < HALF {
      NextPow2(k, n);
      assert n % MODULUS == n;
    } else if n < U64_MAX {
      assert Pow2(63) < n <= 2 * Pow2(63);
      NextPow2(63, n);
      assert n % MODULUS == n;
    }
  }

  /** The counters are 64 bits wide. */
  lemma CountersAreSixtyFourBits()
    ensures MODULUS == Pow2(64) && U64_MAX == Pow2(64) - 1
  {
    HalfIsPow2();
    assert Pow2(64) == 2 * Pow2(63);
  }

  /** floor(log2(n)). */
  ghost function Log2(n: nat): nat
    requires n >= 1
  {
    if n == 1 then 0 else 1 + Log2(n / 2)
  }

  lemma {:induction false} Log2Brackets(n: nat)
    requires n >= 1
    ensures Pow2(Log2(n)) <= n < 2 * Pow2(Log2(n))
  {
    if n > 1 {
      Log2Brackets(n / 2);
    }
  }

  lemma Log2Steps(n: nat)
    requires n >= 1
    ensures Log2(n + 1) == Log2(n) + if IsPow2(n + 1) then 1 else 0
  {
    var a, b := Log2(n), Log2(n + 1);
    Log2Brackets(n);
    Log2Brackets(n + 1);
    NextPow2(a, n + 1);
    if b < a {
      Pow2Grows(b, a);
    } else if a + 1 < b {
      Pow2Grows(a + 1, b);
    } else if b == a + 1 {
      assert Pow2(b) == 2 * Pow2(a);
    }
  }

  /** Exactly floor(log2 n) + 1 of the first `n` events are allowed. */
  lemma {:induction false} BackoffTotal(ts: seq<Instant>, n: nat)
    requires 1 <= n <= |ts| && n < U64_MAX
    ensures AllowedIn(Decisions(NEW_BACKOFF, ts), 0, n) == Log2(n) + 1
  {
    var ds := Decisions(NEW_BACKOFF, ts);
    assert ds[n - 1] == Allow <==> IsPow2(n) by {
      BackoffDecision(ts, n);
    }
    LastAllowed(ds, n);
    if n == 1 {
      assert Pow2(0) == 1;
    } else {
      BackoffTotal(ts, n - 1);
      Log2Steps(n - 1);
    }
  }
}

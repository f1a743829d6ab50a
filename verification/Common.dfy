/** Option and Result, in the place of the source's `Option` and `Result`. */
module Wrappers {
  datatype Option<+T> = None | Some(value: T)

  datatype Result<+T, +E> = Success(value: T) | Failure(error: E)
}

/**
 Machine arithmetic and time.

 An `Instant` is a number of nanoseconds relative to whatever epoch its user fixed (the source keeps
 one base instant per component), so it may be negative; what the source stores in an atomic is the
 clamped value `ToNanos`.
*/
module Machine {
  const U64_MAX := 0xFFFF_FFFF_FFFF_FFFF
  const MODULUS := 0x1_0000_0000_0000_0000

  type u64 = n: nat | n <= U64_MAX

  type Instant = int

  /** `fetch_add(1)` and `+= 1` on a 64-bit counter, with release-profile wrap-around. */
  function WrappingInc(n: u64): u64 {
    (n + 1) % MODULUS
  }

  function SaturatingDouble(n: u64): u64 {
    if 2 * n <= U64_MAX then 2 * n else U64_MAX
  }

  /** `later.saturating_duration_since(earlier)`; `Instant::duration_since` saturates as well. */
  function SaturatingSince(later: Instant, earlier: Instant): nat {
    if later > earlier then later - earlier else 0
  }

  function SaturatingSub(a: nat, b: nat): nat {
    if a > b then a - b else 0
  }

  /** Nanoseconds since the epoch, saturating at both ends of `u64`. */
  function ToNanos(t: Instant): u64 {
    if t < 0 then 0 else if t > U64_MAX then U64_MAX else t
  }

  function Min(a: int, b: int): int {
    if a <= b then a else b
  }

  function Max(a: int, b: int): int {
    if a <= b then b else a
  }

  ghost predicate Nondecreasing(ts: seq<Instant>) {
    forall i, j | 0 <= i <= j < |ts| :: ts[i] <= ts[j]
  }
}

/** Products of naturals, kept away from the solver's own heuristics. */
module Arithmetic {
  lemma TimesSuccessor(n: nat, t: nat)
    ensures (n + 1) * t == n * t + t
  {
  }

  lemma TimesMonotone(a: nat, b: nat, t: nat)
    requires a <= b
    ensures a * t <= b * t
  {
    assert (b - a) * t >= 0;
    assert b * t == a * t + (b - a) * t;
  }

  lemma QuotientBound(n: nat, d: nat, total: nat)
    requires d > 0 && n * d <= total
    ensures n <= total / d
  {
    var q := total / d;
    assert total == q * d + total % d;
    TimesSuccessor(q, d);
    if n > q {
      TimesMonotone(q + 1, n, d);
    }
  }
}

/** Cardinalities. */
module Collections {
  lemma SubsetCount<K>(small: set<K>, large: set<K>)
    requires small <= large
    ensures |small| <= |large|
    ensures |small| == |large| ==> small == large
  {
    var rest := large - small;
    assert large == small + rest;
  }

  ghost function Elements<K>(s: seq<K>): set<K> {
    set k | k in s
  }

  lemma {:induction false} ElementsCount<K>(s: seq<K>)
    ensures |Elements(s)| <= |s|
  {
    if s != [] {
      var init := s[..|s| - 1];
      ElementsCount(init);
      assert Elements(s) == Elements(init) + {s[|s| - 1]};
    }
  }

  lemma {:induction false} DistinctCount<K>(s: seq<K>)
    requires forall i, j | 0 <= i < j < |s| :: s[i] != s[j]
    ensures |Elements(s)| == |s|
  {
    if s != [] {
      var init := s[..|s| - 1];
      DistinctCount(init);
      assert Elements(s) == Elements(init) + {s[|s| - 1]};
      assert s[|s| - 1] !in init;
    }
  }

  lemma OneFewer<K, V>(m: map<K, V>, k: K)
    requires k in m
    ensures |m - {k}| < |m|
  {
    assert (m - {k}).Keys == m.Keys - {k};
    assert |m.Keys - {k}| == |m.Keys| - 1;
  }

  /** Moving one entry over does not change what two maps hold together. */
  lemma MoveOne<K, V>(done: map<K, V>, rest: map<K, V>, k: K)
    requires k in rest
    ensures done[k := rest[k]] + (rest - {k}) == done + rest
  {
    var (moved, left) := (done[k := rest[k]], rest - {k});
    forall x ensures x in moved + left <==> x in done + rest {
    }
    forall x | x in done + rest ensures (moved + left)[x] == (done + rest)[x] {
    }
  }
}

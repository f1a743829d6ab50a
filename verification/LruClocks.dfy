/**
 Sampled LRU under a clock that may stand still: which limits and how many accesses still keep the most
 recently accessed keys resident, exactly.
*/
module LruClocks {
  import opened Wrappers
  import opened Machine
  import opened Collections
  import opened Eviction
  import opened Storage
  import opened StorageTheory

  // ---- Where ties do no harm ----

  lemma LastKeyIsMostRecent<K>(touched: seq<K>)
    requires touched != []
    ensures MostRecent(touched, 1) == {touched[|touched| - 1]}
    decreases |touched|
  {
    var last := touched[|touched| - 1];
    assert last in Elements(touched);
    if |Elements(touched)| <= 1 {
      SubsetCount({last}, Elements(touched));
    } else {
      assert |touched| > 1 by {
        ElementsCount(touched);
      }
      LastKeyIsMostRecent(touched[1..]);
    }
  }

  /** Whatever the clock and the policy, the key last accessed is in. */
  lemma {:induction false} LastKeyResident<K, V>(config: Config<K, V>, ss: seq<Store<K, V>>, ops: seq<Op<K, V>>,
                                                 n: nat)
    requires IsRun(config, ss, ops) && n <= |ops|
    ensures var touched := Touched(ops[..n]); touched != [] ==> touched[|touched| - 1] in ss[n].entries
  {
    if n > 0 {
      LastKeyResident(config, ss, ops, n - 1);
      assert ops[..n][..n - 1] == ops[..n - 1];
      assert Next(config, ss[n - 1], ops[n - 1], ss[n]);
      if ops[n - 1].Scan? {
        assert Touched(ops[..n]) == Touched(ops[..n - 1]);
      }
    }
  }

  /** Until there are more accesses than the limit nothing is evicted. */
  lemma {:induction false} FewTouchesKeepAll<K, V>(config: Config<K, V>, ss: seq<Store<K, V>>, ops: seq<Op<K, V>>,
                                                   maxEntries: nat, n: nat)
    requires config.policy == Some(Lru(maxEntries)) && IsRun(config, ss, ops) && n <= |ops|
    requires |Touched(ops[..n])| <= maxEntries
    ensures ss[n].entries.Keys == Elements(Touched(ops[..n]))
  {
    if n > 0 {
      assert ops[..n][..n - 1] == ops[..n - 1];
      FewTouchesKeepAll(config, ss, ops, maxEntries, n - 1);
      ElementsCount(Touched(ops[..n - 1]));
      assert Next(config, ss[n - 1], ops[n - 1], ss[n]);
      if ops[n - 1].Touch? {
        var op := ops[n - 1];
        assert |ss[n - 1].entries| == |ss[n - 1].entries.Keys|;
        AccessKeys(config, ss[n - 1], op.order, op.key, op.now, op.value);
      }
    }
  }

  lemma {:induction false} MostRecentIsTouched<K>(touched: seq<K>, n: nat)
    ensures MostRecent(touched, n) <= Elements(touched)
    decreases |touched|
  {
    if |Elements(touched)| > n && touched != [] {
      MostRecentIsTouched(touched[1..], n);
    }
  }

  // ---- Where they do ----

  ghost function UpTo(n: nat): (keys: seq<nat>)
    ensures |keys| == n && forall i | 0 <= i < n :: keys[i] == i
    ensures forall k: nat :: k in keys <==> k < n
  {
    var keys: seq<nat> := seq(n, i requires i >= 0 => i);
    assert forall k: nat :: k in keys <==> k < n by {
      forall k: nat | k < n ensures k in keys {
        assert keys[k] == k;
      }
    }
    keys
  }

  /** A listing of the keys below `n`, newest first. */
  ghost function NewestFirst(n: nat): (order: seq<nat>)
    ensures |order| == n && forall i | 0 <= i < n :: order[i] == n - 1 - i
  {
    seq(n, i => n - 1 - i)
  }

  /** The keys below `n`, all stamped alike. */
  ghost function Tied<V>(n: nat, v: V): Store<nat, V> {
    Store(map k | k in UpTo(n) :: Entry(v, 0), 0, 0)
  }

  lemma TiedIsListed<V>(n: nat, v: V)
    ensures Listing(NewestFirst(n), Tied(n, v).entries.Keys)
    ensures |Tied(n, v).entries| == n
  {
    var order := NewestFirst(n);
    DistinctCount(order);
    forall k | k in Tied(n, v).entries.Keys ensures k in order {
      assert order[n - 1 - k] == k;
    }
    assert Elements(order) == Tied(n, v).entries.Keys;
    assert |Tied(n, v).entries| == |Tied(n, v).entries.Keys|;
  }

  ghost function TiedTouch<V>(n: nat, v: V): Op<nat, V> {
    Touch(n, 0, NewestFirst(n), v)
  }

  /** Keys 0 .. limit are accessed once each while the clock stands still. */
  lemma TiedTouchFits<V>(config: Config<nat, V>, n: nat, v: V)
    requires config.policy.Some? && config.policy.value.Lru? && n < config.policy.value.maxEntries
    ensures Next(config, Tied(n, v), TiedTouch(n, v), Tied(n + 1, v))
  {
    TiedIsListed(n, v);
    var st' := Access(config, Tied(n, v), NewestFirst(n), n, 0, v);
    assert st'.entries == Tied(n + 1, v).entries;
  }

  lemma TieEvictsNewest<V>(config: Config<nat, V>, n: nat, v: V)
    requires config.policy == Some(Lru(n)) && n >= 1
    ensures Listing(NewestFirst(n), Tied(n, v).entries.Keys)
    ensures n - 1 !in Access(config, Tied(n, v), NewestFirst(n), n, 0, v).entries
  {
    TiedIsListed(n, v);
    var st, order := Tied(n, v), NewestFirst(n);
    var cs := Candidates(st.entries, Sample(order));
    var ranks := seq(|cs|, i requires 0 <= i < |cs| => config.policy.value.RankOf(cs[i]));
    assert |Sample(order)| >= 1;
    assert forall i | 0 <= i < |cs| :: ranks[i] == 0;
    assert ranks[0] == 0;
    assert MinByKey(ranks) == 0;
    assert VictimOf(config, st, order) == Some(n - 1);
  }

  ghost function TiedOps<V>(n: nat, v: V): (ops: seq<Op<nat, V>>)
    ensures |ops| == n && forall i | 0 <= i < n :: ops[i] == TiedTouch(i, v)
  {
    seq(n, i requires i >= 0 => TiedTouch(i, v))
  }

  lemma {:induction false} TiedOpsTouch<V>(n: nat, v: V)
    ensures Touched(TiedOps(n, v)) == UpTo(n)
    ensures Stamps(TiedOps(n, v)) == seq(n, i => 0)
  {
    if n > 0 {
      TiedOpsTouch(n - 1, v);
      assert TiedOps(n, v)[..n - 1] == TiedOps(n - 1, v);
      assert UpTo(n) == UpTo(n - 1) + [n - 1];
      assert seq(n, i => 0) == seq(n - 1, i => 0) + [0];
    } else {
      assert TiedOps(n, v) == [];
    }
  }

  ghost function TiedStores<V>(n: nat, v: V): (ss: seq<Store<nat, V>>)
    ensures |ss| == n + 1 && forall i | 0 <= i <= n :: ss[i] == Tied(i, v)
  {
    seq(n + 1, i requires i >= 0 => Tied(i, v))
  }

  lemma RunExtends<K, V>(config: Config<K, V>, ss: seq<Store<K, V>>, ops: seq<Op<K, V>>, op: Op<K, V>,
                         st: Store<K, V>)
    requires IsRun(config, ss, ops) && Next(config, ss[|ops|], op, st)
    ensures IsRun(config, ss + [st], ops + [op])
  {
  }

  lemma TiedSnoc<V>(i: nat, v: V)
    ensures TiedStores(i + 1, v) == TiedStores(i, v) + [Tied(i + 1, v)]
    ensures TiedOps(i + 1, v) == TiedOps(i, v) + [TiedTouch(i, v)]
  {
  }

  lemma NoAccesses<V>(config: Config<nat, V>, v: V)
    ensures IsRun(config, TiedStores(0, v), TiedOps(0, v))
  {
    assert Tied(0, v).entries == map[];
  }

  lemma {:induction false} TiedPrefix<V>(config: Config<nat, V>, n: nat, i: nat, v: V)
    requires config.policy == Some(Lru(n)) && i <= n
    ensures IsRun(config, TiedStores(i, v), TiedOps(i, v))
  {
    if i == 0 {
      NoAccesses(config, v);
    } else {
      TiedPrefix(config, n, i - 1, v);
      TiedTouchFits(config, i - 1, v);
      TiedSnoc(i - 1, v);
      RunExtends(config, TiedStores(i - 1, v), TiedOps(i - 1, v), TiedTouch(i - 1, v), Tied(i, v));
    }
  }

  lemma TiedRun<V>(config: Config<nat, V>, n: nat, v: V) returns (ss: seq<Store<nat, V>>)
    requires config.policy == Some(Lru(n)) && n >= 1
    ensures IsRun(config, ss, TiedOps(n + 1, v)) && n - 1 !in ss[n + 1].entries
  {
    var last := Access(config, Tied(n, v), NewestFirst(n), n, 0, v);
    ss := TiedStores(n, v) + [last];
    TieEvictsNewest(config, n, v);
    TiedPrefix(config, n, n, v);
    TiedSnoc(n, v);
    RunExtends(config, TiedStores(n, v), TiedOps(n, v), TiedTouch(n, v), last);
  }

  /** The last two of several different keys are always among the two or more most recent. */
  lemma {:induction false} LastTwoAreMostRecent(touched: seq<nat>, a: nat, b: nat, n: nat)
    requires n >= 2 && |touched| >= 2 && touched[|touched| - 2..] == [a, b]
    ensures a in MostRecent(touched, n)
    decreases |touched|
  {
    assert touched[|touched| - 2] == touched[|touched| - 2..][0] == a;
    if |Elements(touched)| > n {
      ElementsCount(touched);
      assert touched[1..][|touched| - 3..] == touched[|touched| - 2..];
      LastTwoAreMostRecent(touched[1..], a, b, n);
    }
  }

  lemma RecentOfUpTo(n: nat, m: nat)
    requires n >= 2 && m >= 2
    ensures n - 1 in MostRecent(UpTo(n + 1), m)
  {
    assert UpTo(n + 1)[n - 1..] == [n - 1, n];
    LastTwoAreMostRecent(UpTo(n + 1), n - 1, n, m);
  }

  // ---- Exactly when ----

  /** In every run of at most `n` accesses with access times that never go back, the recent keys are resident. */
  ghost predicate TiesHarmless<K(!new), V(!new)>(config: Config<K, V>, maxEntries: nat, n: nat) {
    forall ss: seq<Store<K, V>>, ops: seq<Op<K, V>>
      | IsRun(config, ss, ops) && |Touched(ops)| <= n && Nondecreasing(Stamps(ops)) ::
      MostRecent(Touched(ops), Min(SAMPLE_SIZE, maxEntries)) <= ss[|ops|].entries.Keys
  }

  lemma ShortRunsAreHarmless<K, V>(config: Config<K, V>, ss: seq<Store<K, V>>, ops: seq<Op<K, V>>, maxEntries: nat)
    requires config.policy == Some(Lru(maxEntries)) && IsRun(config, ss, ops)
    requires maxEntries == 1 || |Touched(ops)| <= maxEntries
    ensures MostRecent(Touched(ops), Min(SAMPLE_SIZE, maxEntries)) <= ss[|ops|].entries.Keys
  {
    assert ops[..|ops|] == ops;
    if maxEntries == 1 {
      LastKeyResident(config, ss, ops, |ops|);
      if Touched(ops) != [] {
        LastKeyIsMostRecent(Touched(ops));
      }
    } else {
      FewTouchesKeepAll(config, ss, ops, maxEntries, |ops|);
      MostRecentIsTouched(Touched(ops), Min(SAMPLE_SIZE, maxEntries));
    }
  }

  lemma TiesEvictRecent<V>(config: Config<nat, V>, maxEntries: nat, v: V)
    returns (ss: seq<Store<nat, V>>, ops: seq<Op<nat, V>>)
    requires config.policy == Some(Lru(maxEntries)) && maxEntries >= 2
    ensures IsRun(config, ss, ops) && |Touched(ops)| == maxEntries + 1 && Nondecreasing(Stamps(ops))
    ensures !(MostRecent(Touched(ops), Min(SAMPLE_SIZE, maxEntries)) <= ss[|ops|].entries.Keys)
  {
    var n := maxEntries;
    ss := TiedRun(config, n, v);
    ops := TiedOps(n + 1, v);
    TiedOpsTouch(n + 1, v);
    RecentOfUpTo(n, Min(SAMPLE_SIZE, n));
  }

  /**
   When access times may tie, the recent keys are sure to be resident if and only if the limit is one or
   there are no more accesses than the limit.
  */
  lemma LruTiesExactly<V(!new)>(config: Config<nat, V>, maxEntries: nat, n: nat, v: V)
    requires config.policy == Some(Lru(maxEntries)) && maxEntries >= 1
    ensures TiesHarmless(config, maxEntries, n) <==> maxEntries == 1 || n <= maxEntries
  {
    if maxEntries == 1 || n <= maxEntries {
      forall ss: seq<Store<nat, V>>, ops: seq<Op<nat, V>>
        | IsRun(config, ss, ops) && |Touched(ops)| <= n && Nondecreasing(Stamps(ops))
        ensures MostRecent(Touched(ops), Min(SAMPLE_SIZE, maxEntries)) <= ss[|ops|].entries.Keys
      {
        ShortRunsAreHarmless(config, ss, ops, maxEntries);
      }
    } else {
      var ss, ops := TiesEvictRecent(config, maxEntries, v);
    }
  }
}

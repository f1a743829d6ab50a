/**
 What the store guarantees over whole runs of accesses and keep-everything scans: exact memory accounting,
 the size bounds, which keys are guaranteed resident under sampled LRU, and which under priorities.
*/
module StorageTheory {
  import opened Wrappers
  import opened Machine
  import opened Arithmetic
  import opened Collections
  import opened Eviction
  import opened Storage

  datatype Op<K, V> =
    | Touch(key: K, now: Instant, order: seq<K>, value: V)
    | Scan

  /** A scan may rewrite values (the emitter's claims do) but keeps every entry and every access time. */
  ghost predicate Next<K, V>(config: Config<K, V>, st: Store<K, V>, op: Op<K, V>, st': Store<K, V>) {
    match op
    case Touch(key, now, order, value) =>
      Listing(order, st.entries.Keys) && st' == Access(config, st, order, key, now, value)
    case Scan =>
      && st'.entries.Keys == st.entries.Keys
      && (forall k | k in st.entries :: st'.entries[k].lastAccessNanos == st.entries[k].lastAccessNanos)
      && st'.bytes == st.bytes && st'.evictions == st.evictions
  }

  ghost predicate IsRun<K, V>(config: Config<K, V>, ss: seq<Store<K, V>>, ops: seq<Op<K, V>>) {
    && |ss| == |ops| + 1
    && ss[0] == Store(map[], 0, 0)
    && forall i {:trigger ops[i]} | 0 <= i < |ops| :: Next(config, ss[i], ops[i], ss[i + 1])
  }

  // ---- One eviction ----

  /** The sample holds min(20, size) different keys. */
  lemma SampleCount<K>(order: seq<K>, keys: set<K>)
    requires Listing(order, keys)
    ensures Elements(Sample(order)) <= keys
    ensures |Elements(Sample(order))| == Min(SAMPLE_SIZE, |keys|) == Min(20, |keys|)
  {
    var s := Sample(order);
    forall i, j | 0 <= i < j < |s| ensures s[i] != s[j] {
      ListingIsDistinct(order, keys, j);
      assert order[..j][i] == s[i];
    }
    DistinctCount(s);
  }

  /** The victim is sampled and nothing sampled ranks lower; there is one whenever the store is not empty. */
  lemma VictimIsWorstOfSample<K, V>(config: Config<K, V>, st: Store<K, V>, order: seq<K>)
    requires Listing(order, st.entries.Keys) && config.policy.Some?
    ensures VictimOf(config, st, order).None? <==> st.entries == map[]
    ensures VictimOf(config, st, order).Some? ==>
              var victim := VictimOf(config, st, order).value;
              && victim in Sample(order) && victim in st.entries
              && forall k | k in Sample(order) ::
                   k in st.entries
                   && config.policy.value.RankOf(CandidateFor(st.entries, victim))
                      <= config.policy.value.RankOf(CandidateFor(st.entries, k))
  {
    var policy := config.policy.value;
    var s := Sample(order);
    var cs := Candidates(st.entries, s);
    if cs != [] {
      var ranks := seq(|cs|, i requires 0 <= i < |cs| => policy.RankOf(cs[i]));
      var m := MinByKey(ranks);
      assert VictimOf(config, st, order) == Some(cs[m].key) && cs[m].key == s[m];
      forall k | k in s
        ensures k in st.entries
        ensures policy.RankOf(CandidateFor(st.entries, s[m])) <= policy.RankOf(CandidateFor(st.entries, k))
      {
        var i :| 0 <= i < |s| && s[i] == k;
        assert ranks[m] <= ranks[i];
      }
    } else {
      assert |st.entries.Keys| == 0;
    }
  }

  lemma EvictionRemovesOne<K, V>(config: Config<K, V>, st: Store<K, V>, order: seq<K>, key: K)
    requires Listing(order, st.entries.Keys)
    ensures var victim := Evicted(config, st, order, key);
            && (victim.Some? ==> victim.value != key && victim.value in st.entries && |st.entries| > 0
                                 && |st.entries - {victim.value}| == |st.entries| - 1)
            && (victim.None? ==> key in st.entries || st.entries == map[]
                                 || !config.ShouldEvict(|st.entries|, st.bytes))
  {
    var victim := Evicted(config, st, order, key);
    if config.policy.Some? {
      VictimIsWorstOfSample(config, st, order);
    }
    if victim.Some? {
      assert (st.entries - {victim.value}).Keys == st.entries.Keys - {victim.value};
      assert |st.entries.Keys - {victim.value}| == |st.entries.Keys| - 1;
    }
  }

  /** Which keys an access leaves: at most one victim out, the key in. */
  lemma AccessKeys<K, V>(config: Config<K, V>, st: Store<K, V>, order: seq<K>, key: K, now: Instant, value: V)
    requires Listing(order, st.entries.Keys)
    ensures var victim := Evicted(config, st, order, key);
            Access(config, st, order, key, now, value).entries.Keys
            == (if victim.Some? then st.entries.Keys - {victim.value} else st.entries.Keys) + {key}
  {
  }

  /** An access in one formula, with size, bytes and evictions. */
  lemma AccessShape<K, V>(config: Config<K, V>, st: Store<K, V>, order: seq<K>, key: K, now: Instant, value: V)
    requires Listing(order, st.entries.Keys)
    ensures var st' := Access(config, st, order, key, now, value);
            var victim := Evicted(config, st, order, key);
            var left := if victim.Some? then st.entries - {victim.value} else st.entries;
            && st'.entries == left[key := Entry(value, ToNanos(now))]
            && |st'.entries| == |st.entries| + (if key in st.entries then 0 else 1)
                                - (if victim.Some? then 1 else 0)
            && st'.bytes == st.bytes + (if key in st.entries then 0 else config.TrackedSize())
                            - (if victim.Some? then config.TrackedSize() else 0)
            && st'.evictions == st.evictions + (if victim.Some? then 1 else 0)
  {
    EvictionRemovesOne(config, st, order, key);
    var victim := Evicted(config, st, order, key);
    var left := if victim.Some? then st.entries - {victim.value} else st.entries;
    OneMoreKey(left, key, Entry(value, ToNanos(now)));
  }

  lemma OneMoreKey<K, V>(m: map<K, V>, k: K, v: V)
    ensures |m[k := v]| == |m| + if k in m then 0 else 1
  {
    assert m[k := v].Keys == m.Keys + {k};
    assert |m[k := v]| == |m.Keys + {k}|;
    if k in m {
      assert m.Keys + {k} == m.Keys;
    }
  }

  // ---- Memory ----

  ghost predicate Exact<K, V>(config: Config<K, V>, st: Store<K, V>) {
    st.bytes == |st.entries| * config.TrackedSize()
  }

  /**
   The tracked bytes are the entry size times the number of entries, whatever the values became between
   insertion and eviction.
  */
  lemma {:induction false} AccountingIsExact<K, V>(config: Config<K, V>, ss: seq<Store<K, V>>,
                                                   ops: seq<Op<K, V>>, n: nat)
    requires IsRun(config, ss, ops) && n < |ss|
    ensures Exact(config, ss[n])
  {
    if n > 0 {
      AccountingIsExact(config, ss, ops, n - 1);
      assert Next(config, ss[n - 1], ops[n - 1], ss[n]);
      match ops[n - 1] {
        case Touch(key, now, order, value) =>
          AccessShape(config, ss[n - 1], order, key, now, value);
          TimesSuccessor(|ss[n - 1].entries|, config.TrackedSize());
        case Scan =>
          assert |ss[n].entries.Keys| == |ss[n - 1].entries.Keys|;
      }
    }
  }

  /** Bytes are tracked by the two policies with a byte limit, and then there are that many per entry; else none. */
  lemma TrackedBytesInFull<K, V>(config: Config<K, V>, ss: seq<Store<K, V>>, ops: seq<Op<K, V>>, n: nat)
    requires IsRun(config, ss, ops) && n < |ss|
    ensures var weighs := config.policy.Some?
                          && (config.policy.value.Memory? || config.policy.value.PriorityWithMemory?);
            ss[n].bytes == if weighs then |ss[n].entries| * config.entrySize else 0
  {
    AccountingIsExact(config, ss, ops, n);
  }

  /** When a store is full, in entries alone. */
  ghost predicate Full<K, V>(config: Config<K, V>, entries: nat) {
    config.policy.Some? &&
    match config.policy.value
    case Lru(maxEntries) => entries >= maxEntries
    case Memory(maxBytes) => entries * config.entrySize >= maxBytes
    case Priority(maxEntries, _) => entries >= maxEntries
    case PriorityWithMemory(maxEntries, _, maxBytes) =>
      entries >= maxEntries || entries * config.entrySize >= maxBytes
  }

  /** In every run an access evicts exactly when its key is new, the store is full, and there is something to evict. */
  lemma EvictsExactlyWhenFull<K, V>(config: Config<K, V>, ss: seq<Store<K, V>>, ops: seq<Op<K, V>>, n: nat,
                                    order: seq<K>, key: K)
    requires IsRun(config, ss, ops) && n < |ss| && Listing(order, ss[n].entries.Keys)
    ensures Evicted(config, ss[n], order, key).Some?
       <==> key !in ss[n].entries && ss[n].entries != map[] && Full(config, |ss[n].entries|)
  {
    TrackedBytesInFull(config, ss, ops, n);
    if config.policy.Some? {
      VictimIsWorstOfSample(config, ss[n], order);
    }
  }

  /** An eviction never subtracts more than is tracked. */
  lemma EvictionNeverUnderflows<K, V>(config: Config<K, V>, ss: seq<Store<K, V>>, ops: seq<Op<K, V>>, n: nat,
                                      order: seq<K>, key: K)
    requires IsRun(config, ss, ops) && n < |ss| && Listing(order, ss[n].entries.Keys)
    ensures Evicted(config, ss[n], order, key).Some? ==> EvictOne(config, ss[n], order).bytes >= 0
  {
    AccountingIsExact(config, ss, ops, n);
    EvictionRemovesOne(config, ss[n], order, key);
    if Evicted(config, ss[n], order, key).Some? {
      TimesMonotone(1, |ss[n].entries|, config.TrackedSize());
    }
  }

  /** What a byte or entry limit promises; a limit of zero behaves as one. */
  ghost predicate WithinLimits<K, V>(config: Config<K, V>, st: Store<K, V>) {
    config.policy.Some? ==>
      match config.policy.value
      case Lru(maxEntries) => |st.entries| <= Max(1, maxEntries)
      case Priority(maxEntries, _) => |st.entries| <= Max(1, maxEntries)
      case Memory(maxBytes) => st.bytes < Max(1, maxBytes) + config.entrySize
      case PriorityWithMemory(maxEntries, _, maxBytes) =>
        |st.entries| <= Max(1, maxEntries) && st.bytes < Max(1, maxBytes) + config.entrySize
  }

  lemma StepKeepsLimits<K, V>(config: Config<K, V>, st: Store<K, V>, order: seq<K>, key: K, now: Instant, value: V)
    requires Listing(order, st.entries.Keys) && WithinLimits(config, st) && Exact(config, st)
    ensures WithinLimits(config, Access(config, st, order, key, now, value))
  {
    AccessShape(config, st, order, key, now, value);
    EvictionRemovesOne(config, st, order, key);
    assert st.entries == map[] ==> st.bytes == 0;
  }

  lemma NextKeepsLimits<K, V>(config: Config<K, V>, st: Store<K, V>, op: Op<K, V>, st': Store<K, V>)
    requires WithinLimits(config, st) && Exact(config, st) && Next(config, st, op, st')
    ensures WithinLimits(config, st')
  {
    match op {
      case Touch(key, now, order, value) =>
        StepKeepsLimits(config, st, order, key, now, value);
      case Scan =>
        assert |st'.entries.Keys| == |st.entries.Keys|;
    }
  }

  lemma {:induction false} LimitsHold<K, V>(config: Config<K, V>, ss: seq<Store<K, V>>, ops: seq<Op<K, V>>, n: nat)
    requires IsRun(config, ss, ops) && n < |ss|
    ensures WithinLimits(config, ss[n])
  {
    if n > 0 {
      LimitsHold(config, ss, ops, n - 1);
      AccountingIsExact(config, ss, ops, n - 1);
      NextKeepsLimits(config, ss[n - 1], ops[n - 1], ss[n]);
    }
  }

  /**
   `retain` and `clear` leave the tracked bytes alone, so the accounting survives them exactly when they
   remove nothing.
  */
  lemma RemovalBreaksAccounting<K, V>(config: Config<K, V>, st: Store<K, V>, st': Store<K, V>)
    requires Exact(config, st) && config.TrackedSize() > 0
    requires st'.entries.Keys <= st.entries.Keys && st'.bytes == st.bytes
    ensures Exact(config, st') <==> st'.entries.Keys == st.entries.Keys
  {
    SubsetCount(st'.entries.Keys, st.entries.Keys);
    var e, a, b := config.TrackedSize(), |st'.entries.Keys|, |st.entries.Keys|;
    if a < b {
      TimesMonotone(a + 1, b, e);
      TimesSuccessor(a, e);
    }
  }

  // ---- Sampled LRU ----

  ghost function Touched<K, V>(ops: seq<Op<K, V>>): seq<K> {
    if ops == [] then []
    else
      var last := ops[|ops| - 1];
      Touched(ops[..|ops| - 1]) + if last.Touch? then [last.key] else []
  }

  ghost function Stamps<K, V>(ops: seq<Op<K, V>>): (s: seq<nat>)
    ensures |s| == |Touched(ops)|
  {
    if ops == [] then []
    else
      var last := ops[|ops| - 1];
      Stamps(ops[..|ops| - 1]) + if last.Touch? then [ToNanos(last.now)] else []
  }

  ghost predicate StrictlyIncreasing(s: seq<nat>) {
    forall i, j | 0 <= i < j < |s| :: s[i] < s[j]
  }

  /** The `n` most recently accessed different keys; all of them if there are fewer. */
  ghost function MostRecent<K>(touched: seq<K>, n: nat): set<K>
    decreases |touched|
  {
    if |Elements(touched)| <= n then Elements(touched)
    else if touched == [] then {}
    else MostRecent(touched[1..], n)
  }

  lemma {:induction false} MostRecentCount<K>(touched: seq<K>, n: nat)
    ensures |MostRecent(touched, n)| == Min(n, |Elements(touched)|)
    ensures exists i | 0 <= i <= |touched| :: MostRecent(touched, n) == Elements(touched[i..])
    decreases |touched|
  {
    if |Elements(touched)| <= n {
      assert touched[0..] == touched;
    } else if touched != [] {
      var tail := touched[1..];
      MostRecentCount(tail, n);
      assert Elements(touched) == Elements(tail) + {touched[0]};
      var i :| 0 <= i <= |tail| && MostRecent(tail, n) == Elements(tail[i..]);
      assert tail[i..] == touched[i + 1..];
    }
  }

  ghost function LastTouch<K>(touched: seq<K>, k: K): (i: int)
    ensures -1 <= i < |touched|
    ensures i >= 0 ==> touched[i] == k
    ensures forall j | i < j < |touched| :: touched[j] != k
  {
    if touched == [] then -1
    else if touched[|touched| - 1] == k then |touched| - 1
    else LastTouch(touched[..|touched| - 1], k)
  }

  lemma LastTouchIn<K>(touched: seq<K>, i: nat, k: K)
    requires i <= |touched|
    ensures k in touched[i..] <==> LastTouch(touched, k) >= i
  {
    var last := LastTouch(touched, k);
    if last >= i {
      assert touched[i..][last - i] == k;
    }
    if k in touched[i..] {
      var j :| 0 <= j < |touched[i..]| && touched[i..][j] == k;
      assert touched[i + j] == k;
    }
  }

  /** The LRU invariant: every entry carries the time of its last access, and every short suffix is resident. */
  ghost predicate LruInv<K, V>(st: Store<K, V>, touched: seq<K>, stamps: seq<nat>, maxEntries: nat) {
    && |stamps| == |touched|
    && |st.entries| <= maxEntries
    && (forall k | k in st.entries ::
          LastTouch(touched, k) >= 0 && st.entries[k].lastAccessNanos == stamps[LastTouch(touched, k)])
    && (forall i | 0 <= i <= |touched| && |Elements(touched[i..])| <= Min(SAMPLE_SIZE, maxEntries) ::
          Elements(touched[i..]) <= st.entries.Keys)
  }

  /** The victim is not among the keys of any suffix shorter than the sample. */
  lemma VictimIsOld<K, V>(config: Config<K, V>, st: Store<K, V>, order: seq<K>, touched: seq<K>, stamps: seq<nat>,
                          maxEntries: nat, i: nat)
    requires config.policy == Some(Lru(maxEntries)) && maxEntries >= 1
    requires Listing(order, st.entries.Keys) && LruInv(st, touched, stamps, maxEntries)
    requires StrictlyIncreasing(stamps) && |st.entries| >= maxEntries
    requires i <= |touched| && |Elements(touched[i..])| < Min(SAMPLE_SIZE, maxEntries)
    ensures VictimOf(config, st, order).Some? && VictimOf(config, st, order).value !in touched[i..]
  {
    VictimIsWorstOfSample(config, st, order);
    SampleCount(order, st.entries.Keys);
    var victim := VictimOf(config, st, order).value;
    if victim in touched[i..] {
      LastTouchIn(touched, i, victim);
      forall k | k in Elements(Sample(order)) ensures k in Elements(touched[i..]) {
        assert st.entries[victim].lastAccessNanos <= st.entries[k].lastAccessNanos;
        assert LastTouch(touched, k) >= LastTouch(touched, victim);
        LastTouchIn(touched, i, k);
      }
      SubsetCount(Elements(Sample(order)), Elements(touched[i..]));
    }
  }

  lemma TouchKeepsStamps<K, V>(config: Config<K, V>, st: Store<K, V>, order: seq<K>, key: K, now: Instant, value: V,
                               touched: seq<K>, stamps: seq<nat>, maxEntries: nat)
    requires config.policy == Some(Lru(maxEntries)) && maxEntries >= 1
    requires Listing(order, st.entries.Keys) && LruInv(st, touched, stamps, maxEntries)
    ensures var st' := Access(config, st, order, key, now, value);
            && |st'.entries| <= maxEntries
            && forall k | k in st'.entries ::
                 var last := LastTouch(touched + [key], k);
                 last >= 0 && st'.entries[k].lastAccessNanos == (stamps + [ToNanos(now)])[last]
  {
    AccessShape(config, st, order, key, now, value);
    EvictionRemovesOne(config, st, order, key);
    assert (touched + [key])[..|touched|] == touched;
  }

  lemma SuffixSnoc<K>(touched: seq<K>, key: K, i: nat)
    requires i <= |touched|
    ensures Elements((touched + [key])[i..]) == Elements(touched[i..]) + {key}
  {
    assert (touched + [key])[i..] == touched[i..] + [key];
  }

  lemma TouchKeepsSuffixes<K, V>(config: Config<K, V>, st: Store<K, V>, order: seq<K>, key: K, now: Instant,
                                 value: V, touched: seq<K>, stamps: seq<nat>, maxEntries: nat, i: nat)
    requires config.policy == Some(Lru(maxEntries)) && maxEntries >= 1
    requires Listing(order, st.entries.Keys) && LruInv(st, touched, stamps, maxEntries)
    requires StrictlyIncreasing(stamps) && i <= |touched|
    requires |Elements(touched[i..]) + {key}| <= Min(SAMPLE_SIZE, maxEntries)
    ensures Elements(touched[i..]) + {key} <= Access(config, st, order, key, now, value).entries.Keys
  {
    AccessKeys(config, st, order, key, now, value);
    SuffixSurvives(config, st, order, key, touched, stamps, maxEntries, i);
  }

  lemma TouchKeepsLruInv<K, V>(config: Config<K, V>, st: Store<K, V>, order: seq<K>, key: K, now: Instant, value: V,
                               touched: seq<K>, stamps: seq<nat>, maxEntries: nat)
    requires config.policy == Some(Lru(maxEntries)) && maxEntries >= 1
    requires Listing(order, st.entries.Keys) && LruInv(st, touched, stamps, maxEntries)
    requires StrictlyIncreasing(stamps)
    ensures LruInv(Access(config, st, order, key, now, value), touched + [key], stamps + [ToNanos(now)], maxEntries)
  {
    var st' := Access(config, st, order, key, now, value);
    TouchKeepsStamps(config, st, order, key, now, value, touched, stamps, maxEntries);
    forall i | 0 <= i <= |touched + [key]| && |Elements((touched + [key])[i..])| <= Min(SAMPLE_SIZE, maxEntries)
      ensures Elements((touched + [key])[i..]) <= st'.entries.Keys
    {
      if i <= |touched| {
        SuffixSnoc(touched, key, i);
        TouchKeepsSuffixes(config, st, order, key, now, value, touched, stamps, maxEntries, i);
      }
    }
  }

  /** Nothing in a suffix that is still short after appending `key` is evicted by the access to `key`. */
  lemma SuffixSurvives<K, V>(config: Config<K, V>, st: Store<K, V>, order: seq<K>, key: K,
                             touched: seq<K>, stamps: seq<nat>, maxEntries: nat, i: nat)
    requires config.policy == Some(Lru(maxEntries)) && maxEntries >= 1
    requires Listing(order, st.entries.Keys) && LruInv(st, touched, stamps, maxEntries)
    requires StrictlyIncreasing(stamps) && i <= |touched|
    requires |Elements(touched[i..]) + {key}| <= Min(SAMPLE_SIZE, maxEntries)
    ensures Elements(touched[i..]) <= st.entries.Keys
    ensures Evicted(config, st, order, key).Some? ==> Evicted(config, st, order, key).value !in touched[i..]
  {
    SubsetCount(Elements(touched[i..]), Elements(touched[i..]) + {key});
    if Evicted(config, st, order, key).Some? {
      assert key !in Elements(touched[i..]);
      assert |Elements(touched[i..]) + {key}| == |Elements(touched[i..])| + 1;
      VictimIsOld(config, st, order, touched, stamps, maxEntries, i);
    }
  }

  lemma {:induction false} LruInvHolds<K, V>(config: Config<K, V>, ss: seq<Store<K, V>>, ops: seq<Op<K, V>>,
                                             maxEntries: nat, n: nat)
    requires config.policy == Some(Lru(maxEntries)) && maxEntries >= 1
    requires IsRun(config, ss, ops) && n <= |ops| && StrictlyIncreasing(Stamps(ops[..n]))
    ensures LruInv(ss[n], Touched(ops[..n]), Stamps(ops[..n]), maxEntries)
  {
    if n > 0 {
      var init := ops[..n - 1];
      assert ops[..n][..n - 1] == init;
      var stamps := Stamps(ops[..n]);
      forall i, j | 0 <= i < j < |Stamps(init)| ensures Stamps(init)[i] < Stamps(init)[j] {
        assert stamps[i] < stamps[j];
      }
      LruInvHolds(config, ss, ops, maxEntries, n - 1);
      assert Next(config, ss[n - 1], ops[n - 1], ss[n]);
      match ops[n - 1] {
        case Touch(key, now, order, value) =>
          TouchKeepsLruInv(config, ss[n - 1], order, key, now, value, Touched(init), Stamps(init), maxEntries);
        case Scan =>
          assert |ss[n].entries.Keys| == |ss[n - 1].entries.Keys|;
          assert Touched(ops[..n]) == Touched(init) && stamps == Stamps(init);
      }
    }
  }

  /**
   Residency under sampled LRU: with a strictly increasing clock the min(20, limit) most recently accessed
   different keys are in the store after every run; scans never disturb it.
  */
  lemma RecentKeysResident<K, V>(config: Config<K, V>, ss: seq<Store<K, V>>, ops: seq<Op<K, V>>, maxEntries: nat)
    requires config.policy == Some(Lru(maxEntries)) && maxEntries >= 1
    requires IsRun(config, ss, ops) && StrictlyIncreasing(Stamps(ops))
    ensures MostRecent(Touched(ops), Min(20, maxEntries)) <= ss[|ops|].entries.Keys
  {
    assert ops[..|ops|] == ops;
    LruInvHolds(config, ss, ops, maxEntries, |ops|);
    MostRecentCount(Touched(ops), Min(SAMPLE_SIZE, maxEntries));
  }

  lemma {:induction false} ResidentWereTouched<K, V>(config: Config<K, V>, ss: seq<Store<K, V>>, ops: seq<Op<K, V>>,
                                                     n: nat)
    requires IsRun(config, ss, ops) && n <= |ops|
    ensures ss[n].entries.Keys <= Elements(Touched(ops[..n]))
  {
    if n > 0 {
      ResidentWereTouched(config, ss, ops, n - 1);
      assert ops[..n][..n - 1] == ops[..n - 1];
      assert Next(config, ss[n - 1], ops[n - 1], ss[n]);
      if ops[n - 1].Touch? {
        var op := ops[n - 1];
        AccessKeys(config, ss[n - 1], op.order, op.key, op.now, op.value);
      }
    }
  }

  /** With a limit of at most 20 sampling is exhaustive: the store is exactly the last `maxEntries` keys. */
  lemma SmallLruIsExact<K, V>(config: Config<K, V>, ss: seq<Store<K, V>>, ops: seq<Op<K, V>>, maxEntries: nat)
    requires config.policy == Some(Lru(maxEntries)) && 1 <= maxEntries <= 20
    requires IsRun(config, ss, ops) && StrictlyIncreasing(Stamps(ops))
    ensures ss[|ops|].entries.Keys == MostRecent(Touched(ops), maxEntries)
  {
    assert ops[..|ops|] == ops;
    RecentKeysResident(config, ss, ops, maxEntries);
    LruInvHolds(config, ss, ops, maxEntries, |ops|);
    ResidentWereTouched(config, ss, ops, |ops|);
    MostRecentCount(Touched(ops), maxEntries);
    var resident, recent := ss[|ops|].entries.Keys, MostRecent(Touched(ops), maxEntries);
    SubsetCount(recent, resident);
    SubsetCount(resident, Elements(Touched(ops)));
  }

  // ---- A byte limit ----

  /** As many entries as reach the byte limit; a limit of zero acts as one entry. */
  ghost function EntriesFor(maxBytes: nat, entrySize: nat): nat
    requires entrySize > 0
  {
    Max(1, (maxBytes + entrySize - 1) / entrySize)
  }

  lemma ReachesLimit(n: nat, maxBytes: nat, size: nat)
    requires size > 0
    ensures n * size >= maxBytes <==> n >= (maxBytes + size - 1) / size
  {
    var q := (maxBytes + size - 1) / size;
    assert q * size <= maxBytes + size - 1 < (q + 1) * size;
    TimesSuccessor(q, size);
    if n >= q {
      TimesMonotone(q, n, size);
    } else {
      TimesMonotone(n + 1, q, size);
      TimesSuccessor(n, size);
    }
  }

  /** The same store without its byte counter. */
  function Unweighed<K, V>(st: Store<K, V>): Store<K, V> {
    st.(bytes := 0)
  }

  /** With exact accounting, a byte limit is an entry limit. */
  lemma AccessByBytes<K, V>(config: Config<K, V>, st: Store<K, V>, order: seq<K>, key: K, now: Instant, value: V)
    requires config.policy.Some? && config.policy.value.Memory? && config.entrySize > 0
    requires Listing(order, st.entries.Keys) && Exact(config, st)
    ensures var lru := Config(Some(Lru(EntriesFor(config.policy.value.maxBytes, config.entrySize))), 0);
            Access(lru, Unweighed(st), order, key, now, value)
            == Unweighed(Access(config, st, order, key, now, value))
  {
    var (m, size) := (config.policy.value.maxBytes, config.entrySize);
    var lru: Config<K, V> := Config(Some(Lru(EntriesFor(m, size))), 0);
    ReachesLimit(|st.entries|, m, size);
    VictimIsWorstOfSample(config, st, order);
    VictimIsWorstOfSample(lru, Unweighed(st), order);
    SameVictim(config, lru, st, order);
  }

  lemma SameVictim<K, V>(config: Config<K, V>, lru: Config<K, V>, st: Store<K, V>, order: seq<K>)
    requires config.policy.Some? && config.policy.value.Memory? && lru.policy.Some? && lru.policy.value.Lru?
    requires Listing(order, st.entries.Keys)
    ensures VictimOf(config, st, order) == VictimOf(lru, Unweighed(st), order)
  {
    var cs := Candidates(st.entries, Sample(order));
    assert seq(|cs|, i requires 0 <= i < |cs| => config.policy.value.RankOf(cs[i]))
        == seq(|cs|, i requires 0 <= i < |cs| => lru.policy.value.RankOf(cs[i]));
  }

  /** So every run under a byte limit is, entry by entry, a run of LRU with as many entries as reach the limit. */
  lemma ByteLimitIsLru<K, V>(config: Config<K, V>, ss: seq<Store<K, V>>, ops: seq<Op<K, V>>)
    returns (lrus: seq<Store<K, V>>)
    requires config.policy.Some? && config.policy.value.Memory? && config.entrySize > 0 && IsRun(config, ss, ops)
    ensures |lrus| == |ss| && forall i | 0 <= i < |ss| :: lrus[i] == Unweighed(ss[i])
    ensures IsRun(Config(Some(Lru(EntriesFor(config.policy.value.maxBytes, config.entrySize))), 0), lrus, ops)
  {
    var lru: Config<K, V> := Config(Some(Lru(EntriesFor(config.policy.value.maxBytes, config.entrySize))), 0);
    lrus := seq(|ss|, i requires 0 <= i < |ss| => Unweighed(ss[i]));
    forall i | 0 <= i < |ops| ensures Next(lru, lrus[i], ops[i], lrus[i + 1]) {
      assert Next(config, ss[i], ops[i], ss[i + 1]);
      if ops[i].Touch? {
        AccountingIsExact(config, ss, ops, i);
        AccessByBytes(config, ss[i], ops[i].order, ops[i].key, ops[i].now, ops[i].value);
      }
    }
  }

  /** Residency under a byte limit: the min(20, entries that reach it) most recently accessed keys are in the store. */
  lemma RecentKeysResidentByBytes<K, V>(config: Config<K, V>, ss: seq<Store<K, V>>, ops: seq<Op<K, V>>)
    requires config.policy.Some? && config.policy.value.Memory? && config.entrySize > 0
    requires IsRun(config, ss, ops) && StrictlyIncreasing(Stamps(ops))
    ensures var entries := EntriesFor(config.policy.value.maxBytes, config.entrySize);
            && MostRecent(Touched(ops), Min(20, entries)) <= ss[|ops|].entries.Keys
            && (entries <= 20 ==> ss[|ops|].entries.Keys == MostRecent(Touched(ops), entries))
  {
    var entries := EntriesFor(config.policy.value.maxBytes, config.entrySize);
    var lrus := ByteLimitIsLru(config, ss, ops);
    RecentKeysResident(Config(Some(Lru(entries)), 0), lrus, ops, entries);
    if entries <= 20 {
      SmallLruIsExact(Config(Some(Lru(entries)), 0), lrus, ops, entries);
    }
  }

  // ---- Priorities ----

  /** In this store the protected keys, and only they, rank above the cut. */
  ghost predicate Separates<K, V>(st: Store<K, V>, rank: (K, V) -> nat, protected: set<K>, cut: nat) {
    forall k | k in st.entries :: k in protected <==> rank(k, st.entries[k].value) > cut
  }

  /** Fewer protected keys than any sample taken for an eviction can hold. */
  ghost predicate FewProtected<K, V>(config: Config<K, V>, protected: set<K>) {
    && config.policy.Some? && |protected| < SAMPLE_SIZE
    && match config.policy.value
       case Priority(maxEntries, _) => |protected| < maxEntries
       case PriorityWithMemory(maxEntries, _, maxBytes) =>
         |protected| < maxEntries && |protected| * config.entrySize < maxBytes
       case _ => false
  }

  /** Where an eviction takes place, the sample outnumbers the protected keys. */
  lemma SampleOutnumbersProtected<K, V>(config: Config<K, V>, st: Store<K, V>, order: seq<K>, protected: set<K>)
    requires Listing(order, st.entries.Keys) && Exact(config, st) && FewProtected(config, protected)
    requires config.ShouldEvict(|st.entries|, st.bytes)
    ensures |protected| < |Elements(Sample(order))|
  {
    SampleCount(order, st.entries.Keys);
    if |st.entries| <= |protected| {
      TimesMonotone(|st.entries|, |protected|, config.TrackedSize());
    }
  }

  lemma VictimIsUnprotected<K, V>(config: Config<K, V>, st: Store<K, V>, order: seq<K>, key: K,
                                  protected: set<K>, cut: nat)
    requires Listing(order, st.entries.Keys) && Exact(config, st) && FewProtected(config, protected)
    requires Separates(st, config.policy.value.rank, protected, cut)
    ensures Evicted(config, st, order, key).Some? ==> Evicted(config, st, order, key).value !in protected
  {
    var victim := Evicted(config, st, order, key);
    if victim.Some? {
      VictimIsWorstOfSample(config, st, order);
      SampleOutnumbersProtected(config, st, order, protected);
      if Elements(Sample(order)) <= protected {
        SubsetCount(Elements(Sample(order)), protected);
      }
      var k :| k in Elements(Sample(order)) && k !in protected;
      assert config.policy.value.RankOf(CandidateFor(st.entries, victim.value)) <= cut;
    }
  }

  lemma StepKeepsProtected<K, V>(config: Config<K, V>, st: Store<K, V>, op: Op<K, V>, st': Store<K, V>,
                                 protected: set<K>, cut: nat, k: K)
    requires Next(config, st, op, st') && Exact(config, st) && FewProtected(config, protected)
    requires Separates(st, config.policy.value.rank, protected, cut)
    requires k in protected && k in st.entries
    ensures k in st'.entries
  {
    match op {
      case Touch(key, now, order, value) =>
        VictimIsUnprotected(config, st, order, key, protected, cut);
        AccessKeys(config, st, order, key, now, value);
      case Scan =>
    }
  }

  ghost predicate AllSeparate<K, V>(config: Config<K, V>, ss: seq<Store<K, V>>, protected: set<K>, cut: nat)
    requires FewProtected(config, protected)
  {
    forall st | st in ss :: Separates(st, config.policy.value.rank, protected, cut)
  }

  lemma RunKeepsProtected<K, V>(config: Config<K, V>, ss: seq<Store<K, V>>, ops: seq<Op<K, V>>,
                                protected: set<K>, cut: nat, k: K, n: nat)
    requires IsRun(config, ss, ops) && n < |ops| && FewProtected(config, protected)
    requires AllSeparate(config, ss, protected, cut) && k in protected && k in ss[n].entries
    ensures k in ss[n + 1].entries
  {
    AccountingIsExact(config, ss, ops, n);
    StepKeepsProtected(config, ss[n], ops[n], ss[n + 1], protected, cut, k);
  }

  /** A protected key, once in, stays in for the rest of the run. */
  lemma {:induction false} ProtectedStay<K, V>(config: Config<K, V>, ss: seq<Store<K, V>>, ops: seq<Op<K, V>>,
                                               protected: set<K>, cut: nat, k: K, i: nat, n: nat)
    requires IsRun(config, ss, ops) && i <= n < |ss| && FewProtected(config, protected)
    requires AllSeparate(config, ss, protected, cut) && k in protected && k in ss[i].entries
    ensures k in ss[n].entries
    decreases n
  {
    if i < n {
      ProtectedStay(config, ss, ops, protected, cut, k, i, n - 1);
      RunKeepsProtected(config, ss, ops, protected, cut, k, n - 1);
    }
  }
}

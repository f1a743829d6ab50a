/**
 The bounded store of src/infrastructure/storage.rs: a map of entries with access times, tracked memory, and
 eviction of the worst of a sample of at most twenty entries. The concurrent map visits its entries in an
 order nobody controls; every operation that iterates takes that order as a parameter. `with_entry_mut` is
 one step.
*/
module Storage {
  import opened Wrappers
  import opened Machine
  import opened Collections
  import opened Eviction

  const SAMPLE_SIZE := 20

  datatype Entry<V> = Entry(value: V, lastAccessNanos: u64)

  /** `entrySize` is the constant estimate: the sizes of key and value, plus 64, plus 200. */
  datatype Config<!K, !V> = Config(policy: Option<EvictionPolicy<K, V>>, entrySize: nat)
  {
    predicate ShouldEvict(entries: nat, bytes: int) {
      policy.Some? && policy.value.ShouldEvict(entries, bytes)
    }

    /** What one entry adds to the tracked bytes. */
    function TrackedSize(): nat {
      if policy.Some? && policy.value.TracksMemory() then entrySize else 0
    }
  }

  datatype Store<K, V> = Store(entries: map<K, Entry<V>>, bytes: int, evictions: nat)

  /** `order` lists every key once. */
  ghost predicate Listing<K>(order: seq<K>, keys: set<K>) {
    |order| == |keys| && keys == Elements(order)
  }

  function Sample<K>(order: seq<K>): (s: seq<K>)
    ensures s <= order
    ensures |s| == Min(SAMPLE_SIZE, |order|)
  {
    order[..Min(SAMPLE_SIZE, |order|)]
  }

  function CandidateFor<K, V>(entries: map<K, Entry<V>>, k: K): Candidate<K, V>
    requires k in entries
  {
    Candidate(k, entries[k].value, entries[k].lastAccessNanos)
  }

  function Candidates<K, V>(entries: map<K, Entry<V>>, keys: seq<K>): (cs: seq<Candidate<K, V>>)
    requires forall k | k in keys :: k in entries
    ensures |cs| == |keys|
  {
    seq(|keys|, i requires 0 <= i < |keys| => CandidateFor(entries, keys[i]))
  }

  function VictimOf<K, V>(config: Config<K, V>, st: Store<K, V>, order: seq<K>): (victim: Option<K>)
    requires forall k | k in order :: k in st.entries
    ensures victim.Some? ==> victim.value in st.entries
  {
    if config.policy.None? then None
    else
      var candidates := Candidates(st.entries, Sample(order));
      assert forall i | 0 <= i < |candidates| :: candidates[i].key in st.entries;
      config.policy.value.SelectVictim(candidates)
  }

  function EvictOne<K, V>(config: Config<K, V>, st: Store<K, V>, order: seq<K>): Store<K, V>
    requires forall k | k in order :: k in st.entries
  {
    match VictimOf(config, st, order)
    case None => st
    case Some(victim) =>
      Store(st.entries - {victim}, st.bytes - config.TrackedSize(), st.evictions + 1)
  }

  /** The key evicted, if any, when `key` is accessed. */
  function Evicted<K, V>(config: Config<K, V>, st: Store<K, V>, order: seq<K>, key: K): Option<K>
    requires forall k | k in order :: k in st.entries
  {
    if key !in st.entries && config.ShouldEvict(|st.entries|, st.bytes) then VictimOf(config, st, order) else None
  }

  /** `with_entry_mut`, when the accessor leaves `value` in the entry. */
  function Access<K, V>(config: Config<K, V>, st: Store<K, V>, order: seq<K>, key: K, now: Instant, value: V)
    : Store<K, V>
    requires forall k | k in order :: k in st.entries
  {
    var isNew := key !in st.entries;
    var roomy := if isNew && config.ShouldEvict(|st.entries|, st.bytes) then EvictOne(config, st, order) else st;
    var bytes := roomy.bytes + if isNew then config.TrackedSize() else 0;
    roomy.(entries := roomy.entries[key := Entry(value, ToNanos(now))], bytes := bytes)
  }

  /** The entries once the scan of a `retain` has been at those listed. */
  ghost function RetainedUpTo<K, V>(entries: map<K, Entry<V>>, visited: seq<K>, f: (K, V) -> (V, bool))
    : map<K, Entry<V>>
  {
    map k | k in entries && (k in visited ==> f(k, entries[k].value).1) ::
      if k in visited then entries[k].(value := f(k, entries[k].value).0) else entries[k]
  }

  class ShardedStorage<K(==), V> {
    const config: Config<K, V>
    var entries: map<K, Entry<V>>
    var currentMemoryBytes: int
    var evictions: nat

    ghost function State(): Store<K, V>
      reads this
    {
      Store(entries, currentMemoryBytes, evictions)
    }

    constructor (config: Config<K, V>)
      ensures this.config == config && State() == Store(map[], 0, 0)
    {
      this.config := config;
      entries := map[];
      currentMemoryBytes := 0;
      evictions := 0;
    }

    method EvictOneEntry(order: seq<K>)
      requires Listing(order, entries.Keys)
      modifies this
      ensures State() == EvictOne(config, old(State()), order)
    {
      if config.policy.None? {
        return;
      }
      var policy := config.policy.value;
      var candidates: seq<Candidate<K, V>> := [];
      var i := 0;
      while i < |order| && i < SAMPLE_SIZE
        invariant 0 <= i <= Min(SAMPLE_SIZE, |order|)
        invariant candidates == Candidates(entries, order[..i])
      {
        var k := order[i];
        candidates := candidates + [Candidate(k, entries[k].value, entries[k].lastAccessNanos)];
        assert order[..i + 1] == order[..i] + [k];
        i := i + 1;
      }
      var victim := policy.SelectVictim(candidates);
      if victim.Some? {
        if victim.value in entries {
          entries := entries - {victim.value};
          if policy.TracksMemory() {
            currentMemoryBytes := currentMemoryBytes - config.entrySize;
          }
          evictions := evictions + 1;
        }
      }
    }

    /** The first half of `with_entry_mut`: make room if need be, and create the entry if it is not there. */
    method EnsureEntry(order: seq<K>, key: K, factory: V, now: Instant)
      requires Listing(order, entries.Keys)
      modifies this
      ensures var isNew := key !in old(entries);
              var roomy := if isNew && config.ShouldEvict(|old(entries)|, old(currentMemoryBytes))
                           then EvictOne(config, old(State()), order) else old(State());
              State() == if isNew then roomy.(entries := roomy.entries[key := Entry(factory, ToNanos(now))],
                                              bytes := roomy.bytes + config.TrackedSize())
                         else roomy
    {
      var isNew := key !in entries;
      if isNew && config.ShouldEvict(|entries|, currentMemoryBytes) {
        EvictOneEntry(order);
      }
      if key !in entries {
        if isNew {
          if config.policy.Some? && config.policy.value.TracksMemory() {
            currentMemoryBytes := currentMemoryBytes + config.entrySize;
          }
        }
        entries := entries[key := Entry(factory, ToNanos(now))];
      }
    }

    /** Creates the entry if need be, stamps it, and lets the accessor replace the value and answer. */
    method WithEntryMut<R>(order: seq<K>, key: K, factory: V, accessor: V -> (V, R), now: Instant) returns (r: R)
      requires Listing(order, entries.Keys)
      modifies this
      ensures var found := if key in old(entries) then old(entries)[key].value else factory;
              && r == accessor(found).1
              && State() == Access(config, old(State()), order, key, now, accessor(found).0)
    {
      EnsureEntry(order, key, factory, now);
      ghost var ensured := entries;
      entries := entries[key := entries[key].(lastAccessNanos := ToNanos(now))];
      var (value, answer) := accessor(entries[key].value);
      entries := entries[key := entries[key].(value := value)];
      assert entries == ensured[key := Entry(value, ToNanos(now))];
      r := answer;
    }

    /** `retain`: rewrites every value and keeps those the predicate accepts; tracked bytes are not touched. */
    method Retain(order: seq<K>, f: (K, V) -> (V, bool))
      requires Listing(order, entries.Keys)
      modifies this
      ensures entries.Keys == set k | k in old(entries) && f(k, old(entries)[k].value).1
      ensures forall k | k in entries ::
                entries[k] == old(entries)[k].(value := f(k, old(entries)[k].value).0)
      ensures currentMemoryBytes == old(currentMemoryBytes) && evictions == old(evictions)
    {
      ghost var before := entries;
      var i := 0;
      while i < |order|
        invariant 0 <= i <= |order|
        invariant entries == RetainedUpTo(before, order[..i], f)
        invariant currentMemoryBytes == old(currentMemoryBytes) && evictions == old(evictions)
      {
        var k := order[i];
        ListingIsDistinct(order, before.Keys, i);
        assert order[..i + 1] == order[..i] + [k];
        var (value, keep) := f(k, entries[k].value);
        if keep {
          entries := entries[k := entries[k].(value := value)];
        } else {
          entries := entries - {k};
        }
        assert entries == RetainedUpTo(before, order[..i] + [k], f);
        i := i + 1;
      }
      assert order[..i] == order;
    }

    /** `clear`: the tracked bytes are not reset. */
    method Clear()
      modifies this
      ensures State() == old(State()).(entries := map[])
    {
      entries := map[];
    }
  }

  lemma RepetitionShrinks<K>(order: seq<K>, i: nat)
    requires i < |order| && order[i] in order[..i] + order[i + 1..]
    ensures |Elements(order)| < |order|
  {
    var rest := order[..i] + order[i + 1..];
    ElementsCount(rest);
    forall k | k in order ensures k in rest {
      var j :| 0 <= j < |order| && order[j] == k;
      assert j < i ==> rest[j] == k;
      assert j > i ==> rest[j - 1] == k;
    }
    assert Elements(order) == Elements(rest);
  }

  /** A listing repeats no key. */
  lemma ListingIsDistinct<K>(order: seq<K>, keys: set<K>, i: nat)
    requires Listing(order, keys) && i < |order|
    ensures order[i] !in order[..i]
    ensures order[i] !in order[i + 1..]
  {
    if order[i] in order[..i] + order[i + 1..] {
      RepetitionShrinks(order, i);
    }
  }
}

/** The four eviction adapters of src/infrastructure/eviction/: all pure choices. */
module Eviction {
  import opened Wrappers

  datatype Candidate<K, V> = Candidate(key: K, value: V, lastAccess: nat)

  datatype EvictionPolicy<!K, !V> =
    | Lru(maxEntries: nat)
    | Memory(maxBytes: nat)
    | Priority(maxEntries: nat, rank: (K, V) -> nat)
    | PriorityWithMemory(maxEntries: nat, rank: (K, V) -> nat, maxBytes: nat)
  {
    predicate ShouldEvict(entries: nat, bytes: int) {
      match this
      case Lru(maxEntries) => entries >= maxEntries
      case Memory(maxBytes) => bytes >= maxBytes
      case Priority(maxEntries, _) => entries >= maxEntries
      case PriorityWithMemory(maxEntries, _, maxBytes) => entries >= maxEntries || bytes >= maxBytes
    }

    predicate TracksMemory() {
      Memory? || PriorityWithMemory?
    }

    /** What a victim must be least in: time of last access, or the user's priority. */
    function RankOf(c: Candidate<K, V>): nat {
      match this
      case Lru(_) => c.lastAccess
      case Memory(_) => c.lastAccess
      case Priority(_, rank) => rank(c.key, c.value)
      case PriorityWithMemory(_, rank, _) => rank(c.key, c.value)
    }

    function SelectVictim(candidates: seq<Candidate<K, V>>): Option<K> {
      if candidates == [] then None
      else Some(candidates[MinByKey(seq(|candidates|, i requires 0 <= i < |candidates| => RankOf(candidates[i])))].key)
    }
  }

  /** `min_by_key`: the first of the least. */
  function MinByKey(ranks: seq<nat>): (m: nat)
    requires |ranks| > 0
    ensures m < |ranks|
    ensures forall i | 0 <= i < |ranks| :: ranks[m] <= ranks[i]
    ensures forall i | 0 <= i < m :: ranks[m] < ranks[i]
  {
    if |ranks| == 1 then 0
    else
      var m := MinByKey(ranks[..|ranks| - 1]);
      if ranks[|ranks| - 1] < ranks[m] then |ranks| - 1 else m
  }
}

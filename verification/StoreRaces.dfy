/**
 The store's accounting and limits when several accesses are under way at once: for every configuration, with
 how many accesses at a time each promise still holds, exactly.
*/
module StoreRaces {
  import opened Wrappers
  import opened Machine
  import opened Arithmetic
  import opened Collections
  import opened Eviction
  import opened Storage
  import opened StorageTheory
  import opened StoreThreads

  // ---- Runs, step by step ----

  /** Some run of at most `c` operations at a time leads here. */
  ghost predicate Reached<V(!new)>(config: Config<nat, V>, c: nat, w: World<nat>) {
    exists steps: seq<Step<nat>> :: AtMost(config, c, steps) && Run(config, steps) == w
  }

  lemma ReachStart<V(!new)>(config: Config<nat, V>, c: nat)
    ensures Reached(config, c, World({}, 0, map[], 0, 0))
  {
    assert AtMost(config, c, []) && Run(config, []) == World({}, 0, map[], 0, 0);
  }

  lemma Reach<V(!new)>(config: Config<nat, V>, c: nat, w: World<nat>, step: Step<nat>)
    requires Reached(config, c, w) && Do(config, w, step).active <= c
    ensures Reached(config, c, Do(config, w, step))
  {
    var steps: seq<Step<nat>> :| AtMost(config, c, steps) && Run(config, steps) == w;
    var more := steps + [step];
    assert more[..|more| - 1] == steps && more[|more| - 1] == step;
    assert AtMost(config, c, more) && Run(config, more) == Do(config, w, step);
  }

  ghost predicate NoneInserting(w: World<nat>) {
    forall op | op in w.ops :: !w.ops[op].Inserting?
  }

  /** Nothing is under way. */
  ghost predicate Idle(w: World<nat>) {
    w.active == 0 && forall op | op in w.ops :: w.ops[op].Finished?
  }

  lemma FreshKey(used: set<nat>) returns (k: nat)
    ensures k !in used
  {
    if used == {} {
      k := 0;
    } else {
      var top := Largest(used);
      k := top + 1;
    }
  }

  lemma {:induction false} Largest(s: set<nat>) returns (top: nat)
    requires s != {}
    ensures top in s && forall x | x in s :: x <= top
    decreases |s|
  {
    var x :| x in s;
    var rest := s - {x};
    if rest == {} {
      top := x;
      assert s == {x};
    } else {
      top := Largest(rest);
      top := if x > top then x else top;
      assert forall y | y in s :: y == x || y in rest;
    }
  }

  // ---- Parts of an access ----

  /** The first two steps of an access to a missing key: the lookup, and the length loaded. */
  lemma Arrive<V(!new)>(config: Config<nat, V>, c: nat, w: World<nat>, op: OpId, key: nat)
    requires Reached(config, c, w) && w.active < c && config.policy.Some? && op !in w.ops && key !in w.entries
    ensures Reached(config, c, w.(ops := w.ops[op := LenLoaded(key, |w.entries|)], active := w.active + 1))
  {
    Reach(config, c, w, Start(op, key));
    var checked := w.(ops := w.ops[op := Checked(key, true)], active := w.active + 1);
    assert Do(config, w, Start(op, key)) == checked;
    Reach(config, c, checked, Proceed(op, None));
    assert checked.ops[op := LenLoaded(key, |w.entries|)] == w.ops[op := LenLoaded(key, |w.entries|)];
  }

  /** The bytes are loaded and the policy decides. */
  lemma Decide<V(!new)>(config: Config<nat, V>, c: nat, w: World<nat>, op: OpId, key: nat, len: nat)
    requires Reached(config, c, w) && w.active <= c && op in w.ops && w.ops[op] == LenLoaded(key, len)
    ensures Reached(config, c, Move(w, op, if config.ShouldEvict(len, w.bytes % MODULUS) then Sampling(key)
                                           else Entering(key, true)))
  {
    Reach(config, c, w, Proceed(op, None));
  }

  /** An access to a missing key, up to the decision to evict. */
  lemma Pass<V(!new)>(config: Config<nat, V>, c: nat, w: World<nat>, op: OpId, key: nat)
    requires Reached(config, c, w) && w.active < c && config.policy.Some? && op !in w.ops && key !in w.entries
    requires config.ShouldEvict(|w.entries|, w.bytes % MODULUS)
    ensures Reached(config, c, w.(ops := w.ops[op := Sampling(key)], active := w.active + 1))
  {
    var loaded := w.(ops := w.ops[op := LenLoaded(key, |w.entries|)], active := w.active + 1);
    Arrive(config, c, w, op, key);
    Decide(config, c, loaded, op, key, |w.entries|);
    assert loaded.ops[op := Sampling(key)] == w.ops[op := Sampling(key)];
  }

  /** From the choice of the victim to the bytes subtracted. */
  lemma Evict<V(!new)>(config: Config<nat, V>, c: nat, w: World<nat>, op: OpId, key: nat, v: nat)
    requires Reached(config, c, w) && w.active <= c && op in w.ops && w.ops[op] == Sampling(key)
    requires v in w.entries && NoneInserting(w)
    ensures Reached(config, c, w.(entries := w.entries - {v}, bytes := w.bytes - config.TrackedSize(),
                                  ops := w.ops[op := Entering(key, true)]))
  {
    var go := Proceed(op, Some(v));
    Reach(config, c, w, go);
    var removing := Move(w, op, Removing(key, v));
    assert Do(config, w, go) == removing;
    assert !Locked(removing, v);
    Reach(config, c, removing, go);
    var owing := w.(entries := w.entries - {v}, ops := w.ops[op := Subtracting(key)]);
    assert removing.ops[op := Subtracting(key)] == owing.ops;
    assert Do(config, removing, go) == owing;
    Reach(config, c, owing, go);
    assert owing.ops[op := Entering(key, true)] == w.ops[op := Entering(key, true)];
  }

  /** The second half of an access whose key is vacant. */
  lemma Enter<V(!new)>(config: Config<nat, V>, c: nat, w: World<nat>, op: OpId, key: nat, isNew: bool)
    requires Reached(config, c, w) && 0 < w.active <= c && op in w.ops && w.ops[op] == Entering(key, isNew)
    requires key !in w.entries && NoneInserting(w)
    ensures Reached(config, c, World(w.entries + {key}, w.bytes + (if isNew then config.TrackedSize() else 0),
                                     w.ops[op := Finished], w.untracked + (if isNew then 0 else 1), w.active - 1))
  {
    var go := Proceed(op, None);
    assert !Locked(w, key);
    Reach(config, c, w, go);
    var inserting := w.(bytes := w.bytes + (if isNew then config.TrackedSize() else 0),
                        ops := w.ops[op := Inserting(key, isNew)]);
    assert Do(config, w, go) == inserting;
    Reach(config, c, inserting, go);
    assert inserting.ops[op := Finished] == w.ops[op := Finished];
  }

  /** The second half of an access whose key is there. */
  lemma Find<V(!new)>(config: Config<nat, V>, c: nat, w: World<nat>, op: OpId, key: nat, isNew: bool)
    requires Reached(config, c, w) && 0 < w.active <= c && op in w.ops && w.ops[op] == Entering(key, isNew)
    requires key in w.entries && NoneInserting(w)
    ensures Reached(config, c, Finish(w, op))
  {
    assert !Locked(w, key);
    Reach(config, c, w, Proceed(op, None));
  }

  // ---- Whole accesses, from one idle state to the next ----

  /** An access to a new key where there is room, or nothing to evict: one more entry, tracked. */
  lemma InsertNew<V(!new)>(config: Config<nat, V>, c: nat, w: World<nat>) returns (w': World<nat>)
    requires Reached(config, c, w) && Idle(w) && c >= 1 && config.policy.Some?
    requires w.entries == {} || !config.ShouldEvict(|w.entries|, w.bytes % MODULUS)
    ensures Reached(config, c, w') && Idle(w')
    ensures |w'.entries| == |w.entries| + 1 && w'.bytes == w.bytes + config.TrackedSize()
  {
    var op := FreshKey(w.ops.Keys);
    var key := FreshKey(w.entries);
    EnterFreely(config, c, w, op, key);
    var entering := w.(ops := w.ops[op := Entering(key, true)], active := 1);
    Enter(config, c, entering, op, key, true);
    w' := World(w.entries + {key}, w.bytes + config.TrackedSize(), entering.ops[op := Finished], w.untracked, 0);
  }

  /** There is room, or the sample is empty. */
  lemma EnterFreely<V(!new)>(config: Config<nat, V>, c: nat, w: World<nat>, op: OpId, key: nat)
    requires Reached(config, c, w) && w.active == 0 && c >= 1 && config.policy.Some?
    requires op !in w.ops && key !in w.entries
    requires w.entries == {} || !config.ShouldEvict(|w.entries|, w.bytes % MODULUS)
    ensures Reached(config, c, w.(ops := w.ops[op := Entering(key, true)], active := 1))
  {
    if config.ShouldEvict(|w.entries|, w.bytes % MODULUS) {
      Pass(config, c, w, op, key);
      var sampling := w.(ops := w.ops[op := Sampling(key)], active := 1);
      Reach(config, c, sampling, Proceed(op, None));
      assert sampling.ops[op := Entering(key, true)] == w.ops[op := Entering(key, true)];
    } else {
      var loaded := w.(ops := w.ops[op := LenLoaded(key, |w.entries|)], active := 1);
      Arrive(config, c, w, op, key);
      Decide(config, c, loaded, op, key, |w.entries|);
      assert loaded.ops[op := Entering(key, true)] == w.ops[op := Entering(key, true)];
    }
  }

  /** An access to a new key that evicts the given one, while others wait. */
  lemma ReplaceKey<V(!new)>(config: Config<nat, V>, c: nat, w: World<nat>, v: nat) returns (w': World<nat>, op: OpId)
    requires Reached(config, c, w) && w.active < c && config.policy.Some? && v in w.entries && NoneInserting(w)
    requires config.ShouldEvict(|w.entries|, w.bytes % MODULUS)
    ensures Reached(config, c, w') && op !in w.ops && w'.ops == w.ops[op := Finished]
    ensures v !in w'.entries && |w'.entries| == |w.entries|
    ensures w'.bytes == w.bytes && w'.active == w.active && w'.untracked == w.untracked
  {
    op := FreshKey(w.ops.Keys);
    var key := FreshKey(w.entries);
    Pass(config, c, w, op, key);
    var sampling := w.(ops := w.ops[op := Sampling(key)], active := w.active + 1);
    Evict(config, c, sampling, op, key, v);
    w' := World(w.entries - {v} + {key}, w.bytes, w.ops[op := Finished], w.untracked, w.active);
    EnterEvicted(config, c, w, op, key, v);
    assert |w.entries - {v}| == |w.entries| - 1;
  }

  /** The entry takes the victim's place. */
  lemma EnterEvicted<V(!new)>(config: Config<nat, V>, c: nat, w: World<nat>, op: OpId, key: nat, v: nat)
    requires w.active < c && op !in w.ops && v in w.entries && key !in w.entries && NoneInserting(w)
    requires Reached(config, c, w.(entries := w.entries - {v}, bytes := w.bytes - config.TrackedSize(),
                                   ops := w.ops[op := Sampling(key)][op := Entering(key, true)],
                                   active := w.active + 1))
    ensures Reached(config, c, World(w.entries - {v} + {key}, w.bytes, w.ops[op := Finished], w.untracked, w.active))
  {
    var entering := w.(entries := w.entries - {v}, bytes := w.bytes - config.TrackedSize(),
                       ops := w.ops[op := Sampling(key)][op := Entering(key, true)], active := w.active + 1);
    Enter(config, c, entering, op, key, true);
    assert entering.ops[op := Finished] == w.ops[op := Finished];
  }

  /** An access finds its key, another evicts it, the first inserts it again: one more entry, not tracked. */
  lemma InsertStale<V(!new)>(config: Config<nat, V>, c: nat, w: World<nat>) returns (w': World<nat>)
    requires Reached(config, c, w) && Idle(w) && c >= 2 && config.policy.Some? && w.entries != {}
    requires config.ShouldEvict(|w.entries|, w.bytes % MODULUS)
    ensures Reached(config, c, w') && Idle(w')
    ensures |w'.entries| == |w.entries| + 1 && w'.bytes == w.bytes
  {
    var op := FreshKey(w.ops.Keys);
    var v :| v in w.entries;
    Reach(config, c, w, Start(op, v));
    var found := w.(ops := w.ops[op := Checked(v, false)], active := 1);
    assert Do(config, w, Start(op, v)) == found;
    var gone, other := ReplaceKey(config, c, found, v);
    Reach(config, c, gone, Proceed(op, None));
    var entering := Move(gone, op, Entering(v, false));
    assert Do(config, gone, Proceed(op, None)) == entering;
    Enter(config, c, entering, op, v, false);
    w' := World(gone.entries + {v}, w.bytes, entering.ops[op := Finished], gone.untracked + 1, 0);
  }

  /** Two accesses to one new key both decide to evict; only one of them inserts: one entry fewer. */
  lemma InsertTwice<V(!new)>(config: Config<nat, V>, c: nat, w: World<nat>) returns (w': World<nat>)
    requires Reached(config, c, w) && Idle(w) && c >= 2 && config.policy.Some? && |w.entries| >= 2
    requires config.ShouldEvict(|w.entries|, w.bytes % MODULUS)
    ensures Reached(config, c, w') && Idle(w')
    ensures |w'.entries| == |w.entries| - 1 && w'.bytes == w.bytes - config.TrackedSize()
  {
    var a := FreshKey(w.ops.Keys);
    var b := FreshKey(w.ops.Keys + {a});
    var key := FreshKey(w.entries);
    var both := BothSampling(config, c, w, a, b, key);
    var v :| v in w.entries;
    var u :| u in w.entries - {v} by {
      assert |w.entries - {v}| == |w.entries| - 1;
    }
    Evict(config, c, both, a, key, v);
    var one := both.(entries := w.entries - {v}, bytes := w.bytes - config.TrackedSize(),
                     ops := both.ops[a := Entering(key, true)]);
    w' := SecondEvicts(config, c, one, a, b, key, u);
    assert |w.entries - {v}| == |w.entries| - 1;
  }

  lemma BothSampling<V(!new)>(config: Config<nat, V>, c: nat, w: World<nat>, a: OpId, b: OpId, key: nat)
    returns (both: World<nat>)
    requires Reached(config, c, w) && Idle(w) && c >= 2 && config.policy.Some?
    requires a !in w.ops && b !in w.ops && a != b && key !in w.entries
    requires config.ShouldEvict(|w.entries|, w.bytes % MODULUS)
    ensures Reached(config, c, both)
    ensures both == w.(ops := w.ops[a := Sampling(key)][b := Sampling(key)], active := 2)
  {
    Pass(config, c, w, a, key);
    var first := w.(ops := w.ops[a := Sampling(key)], active := 1);
    Pass(config, c, first, b, key);
    both := w.(ops := w.ops[a := Sampling(key)][b := Sampling(key)], active := 2);
  }

  lemma SecondEvicts<V(!new)>(config: Config<nat, V>, c: nat, w: World<nat>, a: OpId, b: OpId, key: nat, u: nat)
    returns (w': World<nat>)
    requires Reached(config, c, w) && w.active == 2 <= c && a != b && a in w.ops && b in w.ops
    requires w.ops[a] == Entering(key, true) && w.ops[b] == Sampling(key) && u in w.entries && key !in w.entries
    requires forall op | op in w.ops && op != a && op != b :: w.ops[op].Finished?
    ensures Reached(config, c, w') && Idle(w')
    ensures |w'.entries| == |w.entries| && w'.bytes == w.bytes
  {
    Evict(config, c, w, b, key, u);
    var evicted := w.(entries := w.entries - {u}, bytes := w.bytes - config.TrackedSize(),
                      ops := w.ops[b := Entering(key, true)]);
    Enter(config, c, evicted, a, key, true);
    var entered := World(w.entries - {u} + {key}, w.bytes, evicted.ops[a := Finished], w.untracked, 1);
    Find(config, c, entered, b, key, true);
    w' := Finish(entered, b);
  }

  lemma AloneUnasked<V(!new)>(config: Config<nat, V>, c: nat, w: World<nat>, key: nat) returns (w': World<nat>)
    requires Reached(config, c, w) && Idle(w) && c >= 1 && (key in w.entries || config.policy.None?)
    ensures Reached(config, c, w') && Idle(w') && w'.entries == w.entries + {key}
    ensures w'.bytes == w.bytes + if key in w.entries then 0 else config.TrackedSize()
  {
    var op := FreshKey(w.ops.Keys);
    EnterUnasked(config, c, w, op, key);
    var entering := w.(ops := w.ops[op := Entering(key, key !in w.entries)], active := 1);
    if key in w.entries {
      Find(config, c, entering, op, key, false);
      w' := Finish(entering, op);
    } else {
      Enter(config, c, entering, op, key, true);
      w' := World(w.entries + {key}, w.bytes + config.TrackedSize(), entering.ops[op := Finished], w.untracked, 0);
    }
  }

  lemma AloneReplaces<V(!new)>(config: Config<nat, V>, c: nat, w: World<nat>, key: nat, v: nat) returns (w': World<nat>)
    requires Reached(config, c, w) && Idle(w) && c >= 1 && config.policy.Some? && key !in w.entries && v in w.entries
    requires config.ShouldEvict(|w.entries|, w.bytes % MODULUS)
    ensures Reached(config, c, w') && Idle(w') && w'.entries == w.entries - {v} + {key} && w'.bytes == w.bytes
  {
    var op := FreshKey(w.ops.Keys);
    Pass(config, c, w, op, key);
    var sampling := w.(ops := w.ops[op := Sampling(key)], active := 1);
    Evict(config, c, sampling, op, key, v);
    EnterEvicted(config, c, w, op, key, v);
    w' := World(w.entries - {v} + {key}, w.bytes, w.ops[op := Finished], w.untracked, 0);
  }

  lemma AloneInserts<V(!new)>(config: Config<nat, V>, c: nat, w: World<nat>, key: nat) returns (w': World<nat>)
    requires Reached(config, c, w) && Idle(w) && c >= 1 && config.policy.Some? && key !in w.entries
    requires w.entries == {} || !config.ShouldEvict(|w.entries|, w.bytes % MODULUS)
    ensures Reached(config, c, w') && Idle(w') && w'.entries == w.entries + {key}
    ensures w'.bytes == w.bytes + config.TrackedSize()
  {
    var op := FreshKey(w.ops.Keys);
    EnterFreely(config, c, w, op, key);
    var entering := w.(ops := w.ops[op := Entering(key, true)], active := 1);
    Enter(config, c, entering, op, key, true);
    w' := World(w.entries + {key}, w.bytes + config.TrackedSize(), entering.ops[op := Finished], w.untracked, 0);
  }

  /** What the sequential access does to keys and bytes. */
  lemma AccessOnKeys<V>(config: Config<nat, V>, st: Store<nat, V>, order: seq<nat>, key: nat, now: Instant, value: V)
    requires Listing(order, st.entries.Keys)
    ensures var (st', victim) := (Access(config, st, order, key, now, value), Evicted(config, st, order, key));
            && st'.entries.Keys == (if victim.Some? then st.entries.Keys - {victim.value} else st.entries.Keys) + {key}
            && st'.bytes == st.bytes + (if key in st.entries || victim.Some? then 0 else config.TrackedSize())
            && (victim.Some? ==> victim.value in st.entries && key !in st.entries && config.policy.Some?
                                 && config.ShouldEvict(|st.entries|, st.bytes))
            && (victim.None? && key !in st.entries && config.policy.Some? ==>
                  st.entries == map[] || !config.ShouldEvict(|st.entries|, st.bytes))
  {
    AccessShape(config, st, order, key, now, value);
    AccessKeys(config, st, order, key, now, value);
    EvictionRemovesOne(config, st, order, key);
  }

  /** One access alone, from an idle state: the sequential `Access`, as far as keys and bytes go. */
  lemma AloneIsAccess<V(!new)>(config: Config<nat, V>, c: nat, w: World<nat>, st: Store<nat, V>, order: seq<nat>,
                               key: nat, now: Instant, value: V) returns (w': World<nat>)
    requires Reached(config, c, w) && Idle(w) && c >= 1
    requires st.entries.Keys == w.entries && st.bytes == w.bytes && 0 <= w.bytes < MODULUS
    requires Listing(order, st.entries.Keys)
    ensures Reached(config, c, w') && Idle(w')
    ensures var st' := Access(config, st, order, key, now, value);
            w'.entries == st'.entries.Keys && w'.bytes == st'.bytes
  {
    var victim := Evicted(config, st, order, key);
    assert |st.entries| == |w.entries| && w.bytes % MODULUS == w.bytes;
    AccessOnKeys(config, st, order, key, now, value);
    if victim.Some? {
      w' := AloneReplaces(config, c, w, key, victim.value);
    } else if key in w.entries || config.policy.None? {
      w' := AloneUnasked(config, c, w, key);
    } else {
      w' := AloneInserts(config, c, w, key);
    }
  }

  /** A key that is there, or a store without a policy, is not asked about. */
  lemma EnterUnasked<V(!new)>(config: Config<nat, V>, c: nat, w: World<nat>, op: OpId, key: nat)
    requires Reached(config, c, w) && w.active == 0 && c >= 1 && op !in w.ops
    requires key in w.entries || config.policy.None?
    ensures Reached(config, c, w.(ops := w.ops[op := Entering(key, key !in w.entries)], active := 1))
  {
    var isNew := key !in w.entries;
    Reach(config, c, w, Start(op, key));
    var checked := w.(ops := w.ops[op := Checked(key, isNew)], active := 1);
    assert Do(config, w, Start(op, key)) == checked;
    Reach(config, c, checked, Proceed(op, None));
    assert checked.ops[op := Entering(key, isNew)] == w.ops[op := Entering(key, isNew)];
  }

  // ---- Many at once ----

  /** The operations that have decided to evict. */
  ghost function Samplers(w: World<nat>): set<OpId> {
    set op | op in w.ops && w.ops[op].Sampling?
  }

  lemma SamplersAfter(w: World<nat>, w': World<nat>, op: OpId, key: nat)
    requires op !in w.ops && w'.ops == w.ops[op := Sampling(key)]
    ensures |Samplers(w')| == |Samplers(w)| + 1
  {
    assert Samplers(w') == Samplers(w) + {op};
    CountOne(Samplers(w), op);
  }

  lemma OneMoreSampler<V(!new)>(config: Config<nat, V>, c: nat, w: World<nat>) returns (w': World<nat>)
    requires Reached(config, c, w) && w.active < c && config.policy.Some? && NoneInserting(w)
    requires config.ShouldEvict(|w.entries|, w.bytes % MODULUS)
    ensures Reached(config, c, w') && NoneInserting(w') && |Samplers(w')| == |Samplers(w)| + 1
    ensures w'.active == w.active + 1 && w'.entries == w.entries && w'.bytes == w.bytes
  {
    var op := FreshKey(w.ops.Keys);
    var key := FreshKey(w.entries);
    Pass(config, c, w, op, key);
    w' := w.(ops := w.ops[op := Sampling(key)], active := w.active + 1);
    SamplersAfter(w, w', op, key);
  }

  /** Any number of accesses to new keys decide to evict before any of them does. */
  lemma {:induction false} Gather<V(!new)>(config: Config<nat, V>, c: nat, w: World<nat>, k: nat)
    returns (w': World<nat>)
    requires Reached(config, c, w) && Idle(w) && k <= c && config.policy.Some?
    requires config.ShouldEvict(|w.entries|, w.bytes % MODULUS)
    ensures Reached(config, c, w') && NoneInserting(w') && |Samplers(w')| == k && w'.active == k
    ensures w'.entries == w.entries && w'.bytes == w.bytes
  {
    if k == 0 {
      w' := w;
      assert Samplers(w) == {};
    } else {
      var before := Gather(config, c, w, k - 1);
      w' := OneMoreSampler(config, c, before);
    }
  }

  /** And then each evicts an entry and subtracts its bytes. */
  lemma {:induction false} Disperse<V(!new)>(config: Config<nat, V>, c: nat, w: World<nat>, k: nat)
    returns (w': World<nat>)
    requires Reached(config, c, w) && NoneInserting(w) && w.active <= c
    requires k <= |Samplers(w)| && k <= |w.entries|
    ensures Reached(config, c, w') && w'.bytes == w.bytes - k * config.TrackedSize()
    decreases k
  {
    if k == 0 {
      w' := w;
    } else {
      var op :| op in Samplers(w);
      var v :| v in w.entries;
      Evict(config, c, w, op, w.ops[op].key, v);
      var next := w.(entries := w.entries - {v}, bytes := w.bytes - config.TrackedSize(),
                     ops := w.ops[op := Entering(w.ops[op].key, true)]);
      assert Samplers(next) == Samplers(w) - {op};
      assert |Samplers(w) - {op}| == |Samplers(w)| - 1;
      assert |w.entries - {v}| == |w.entries| - 1;
      w' := Disperse(config, c, next, k - 1);
      TimesSuccessor(k - 1, config.TrackedSize());
    }
  }

  // ---- Up to the limit ----

  /** The byte limit, plus the entry that exceeds it, fits in the counter. */
  ghost predicate Fits<V>(config: Config<nat, V>) {
    config.policy.Some? && config.policy.value.Memory? ==> config.policy.value.maxBytes + config.entrySize <= MODULUS
  }

  /** A limit that entries can reach: any number of entries, or bytes that are tracked. */
  ghost predicate CanFill<V>(config: Config<nat, V>) {
    config.policy.Some? && Fits(config) && (config.policy.value.Memory? ==> config.entrySize > 0)
  }

  /** One entry fewer would have met no byte limit. */
  ghost predicate BarelyFull<V>(config: Config<nat, V>, n: nat) {
    config.policy.Some? && config.policy.value.Memory? && n > 1 ==>
      (n - 1) * config.entrySize < config.policy.value.maxBytes
  }

  /** How far the entries are from the limit. */
  ghost function Distance<V>(config: Config<nat, V>, n: nat): nat
    requires config.policy.Some?
  {
    var limit := match config.policy.value
                 case Lru(maxEntries) => maxEntries
                 case Priority(maxEntries, _) => maxEntries
                 case PriorityWithMemory(maxEntries, _, _) => maxEntries
                 case Memory(maxBytes) => maxBytes;
    SaturatingSub(limit, if config.policy.value.Memory? then n * config.entrySize else n)
  }

  /** Where nothing is evicted yet, the limit is still ahead, and the next entry is barely past it. */
  lemma NotFullYet<V>(config: Config<nat, V>, n: nat)
    requires CanFill(config) && n >= 1 && BarelyFull(config, n)
    requires !config.ShouldEvict(n, n * config.TrackedSize() % MODULUS)
    ensures BarelyFull(config, n + 1) && Distance(config, n + 1) < Distance(config, n)
  {
    if config.policy.value.Memory? {
      var (m, size) := (config.policy.value.maxBytes, config.entrySize);
      TimesSuccessor(n - 1, size);
      TimesSuccessor(n, size);
      if n > 1 {
        assert n * size < MODULUS;
      } else {
        assert m > 0 ==> size < MODULUS;
      }
      assert n * size % MODULUS == n * size;
    }
  }

  /** Tracked insertions, one after another, until the store evicts. */
  lemma {:induction false} Fill<V(!new)>(config: Config<nat, V>, c: nat, w: World<nat>, e: nat)
    returns (w': World<nat>, n: nat)
    requires Reached(config, c, w) && Idle(w) && c >= 1 && CanFill(config)
    requires e >= 1 && |w.entries| == e && w.bytes == e * config.TrackedSize() && BarelyFull(config, e)
    ensures Reached(config, c, w') && Idle(w') && n >= 1 && BarelyFull(config, n)
    ensures |w'.entries| == n && w'.bytes == n * config.TrackedSize()
    ensures config.ShouldEvict(n, w'.bytes % MODULUS)
    decreases Distance(config, e)
  {
    if config.ShouldEvict(e, w.bytes % MODULUS) {
      w', n := w, e;
    } else {
      NotFullYet(config, e);
      TimesSuccessor(e, config.TrackedSize());
      var next := InsertNew(config, c, w);
      w', n := Fill(config, c, next, e + 1);
    }
  }

  lemma FillFromEmpty<V(!new)>(config: Config<nat, V>, c: nat) returns (w: World<nat>, n: nat)
    requires c >= 1 && CanFill(config)
    ensures Reached(config, c, w) && Idle(w) && n >= 1 && BarelyFull(config, n)
    ensures |w.entries| == n && w.bytes == n * config.TrackedSize()
    ensures config.ShouldEvict(n, w.bytes % MODULUS)
  {
    ReachStart(config, c);
    var first := InsertNew(config, c, World({}, 0, map[], 0, 0));
    w, n := Fill(config, c, first, 1);
  }

  // ---- Exact accounting ----

  /** With at most `c` operations at a time, where no counter update is outstanding the accounting is exact. */
  ghost predicate AlwaysExact<V(!new)>(config: Config<nat, V>, c: nat) {
    forall w: World<nat> | Reached(config, c, w) && Quiet(w) :: w.bytes == |w.entries| * config.TrackedSize()
  }

  lemma UntrackedStoreIsExact<K, V>(config: Config<K, V>, steps: seq<Step<K>>)
    requires config.TrackedSize() == 0
    ensures Run(config, steps).bytes == 0
  {
    BytesInEveryRun(config, steps);
  }

  lemma AloneOrUntrackedSafe<V(!new)>(config: Config<nat, V>, c: nat, w: World<nat>)
    requires Reached(config, c, w) && (c <= 1 || config.TrackedSize() == 0)
    ensures w.bytes >= 0
    ensures Quiet(w) ==> w.bytes == |w.entries| * config.TrackedSize()
  {
    var steps: seq<Step<nat>> :| AtMost(config, c, steps) && Run(config, steps) == w;
    if config.TrackedSize() == 0 {
      UntrackedStoreIsExact(config, steps);
    } else {
      FewerAtOnce(config, c, 1, steps);
      AloneIsExact(config, steps);
    }
  }

  lemma StaleIsInexact<V(!new)>(config: Config<nat, V>, c: nat)
    requires c >= 2 && CanFill(config) && config.TrackedSize() > 0
    ensures !AlwaysExact(config, c)
  {
    var full, n := FillFromEmpty(config, c);
    var stale := InsertStale(config, c, full);
    TimesSuccessor(n, config.TrackedSize());
    assert Quiet(stale);
  }

  lemma TracksWhatItReaches<V>(config: Config<nat, V>)
    requires config.TrackedSize() > 0 && Fits(config)
    ensures CanFill(config)
  {
  }

  /**
   For every store whose byte limit fits in the counter: the accounting is exact in all runs of at most `c`
   accesses at a time if and only if it is one at a time, or the store tracks no bytes.
  */
  lemma ExactAccountingExactly<V(!new)>(config: Config<nat, V>, c: nat)
    requires Fits(config)
    ensures AlwaysExact(config, c) <==> c <= 1 || config.TrackedSize() == 0
  {
    if c <= 1 || config.TrackedSize() == 0 {
      forall w: World<nat> | Reached(config, c, w) && Quiet(w) ensures w.bytes == |w.entries| * config.TrackedSize() {
        AloneOrUntrackedSafe(config, c, w);
      }
    } else {
      TracksWhatItReaches(config);
      StaleIsInexact(config, c);
    }
  }

  // ---- No underflow ----

  ghost predicate NeverUnderflows<V(!new)>(config: Config<nat, V>, c: nat) {
    forall w: World<nat> | Reached(config, c, w) :: w.bytes >= 0
  }

  /** The byte limit leaves more room than all other accesses can take away. */
  ghost predicate Roomy<V>(config: Config<nat, V>, c: nat) {
    && config.policy.Some? && config.policy.value.Memory?
    && config.policy.value.maxBytes > (c - 1) * config.entrySize
  }

  /** The operations that have decided to evict and not subtracted yet. */
  predicate Evicting(pc: Pc<nat>) {
    pc.Sampling? || pc.Removing? || pc.Subtracting?
  }

  ghost function Evictors(w: World<nat>): set<OpId> {
    set op | op in w.ops && Evicting(w.ops[op])
  }

  /** One if the operation has decided to evict and not subtracted yet. */
  ghost function Plans(w: World<nat>, op: OpId): int {
    if op in w.ops && Evicting(w.ops[op]) then 1 else 0
  }

  lemma EvictorsAfter(w: World<nat>, w': World<nat>, op: OpId, pc: Pc<nat>)
    requires w'.ops == w.ops[op := pc]
    ensures |Evictors(w')| == |Evictors(w)| - Plans(w, op) + Plans(w', op)
  {
    CountOne(Evictors(w), op);
    assert Evictors(w') == if Evicting(pc) then Evictors(w) + {op} else Evictors(w) - {op};
  }

  /** Only a subtraction takes from what is tracked, and only a decision to evict, over the limit, plans one. */
  ghost predicate Planned(w: World<nat>, w': World<nat>, op: OpId, maxBytes: nat) {
    && (Growth(w, w', op) < 0 ==> Growth(w, w', op) == -1 && Plans(w, op) == 1 && Plans(w', op) == 0)
    && (Plans(w, op) < Plans(w', op) ==> Growth(w, w', op) == 0 && w.bytes % MODULUS >= maxBytes)
  }

  lemma OtherStepsPlan<V>(config: Config<nat, V>, w: World<nat>, op: OpId, victim: Option<nat>)
    requires config.policy.Some? && config.policy.value.Memory?
    requires op in w.ops && !w.ops[op].Removing? && !w.ops[op].Inserting?
    ensures Planned(w, Advance(config, w, op, w.ops[op], victim), op, config.policy.value.maxBytes)
  {
  }

  lemma RemovalPlans<V>(config: Config<nat, V>, w: World<nat>, op: OpId, victim: Option<nat>, maxBytes: nat)
    requires op in w.ops && w.ops[op].Removing?
    ensures Planned(w, Advance(config, w, op, w.ops[op], victim), op, maxBytes)
  {
    CountOne(w.entries, w.ops[op].victim);
  }

  lemma InsertionPlans<V>(config: Config<nat, V>, w: World<nat>, op: OpId, victim: Option<nat>, maxBytes: nat)
    requires op in w.ops && w.ops[op].Inserting? && LocksHeld(w)
    ensures Planned(w, Advance(config, w, op, w.ops[op], victim), op, maxBytes)
  {
    assert w.ops[op].key !in w.entries;
    CountOne(w.entries, w.ops[op].key);
  }

  lemma StepPlans<V>(config: Config<nat, V>, w: World<nat>, step: Step<nat>)
    requires LocksHeld(w) && config.policy.Some? && config.policy.value.Memory?
    ensures Planned(w, Do(config, w, step), step.op, config.policy.value.maxBytes)
  {
    if step.Proceed? && step.op in w.ops {
      match w.ops[step.op] {
        case Removing(_, _) => RemovalPlans(config, w, step.op, step.victim, config.policy.value.maxBytes);
        case Inserting(_, _) => InsertionPlans(config, w, step.op, step.victim, config.policy.value.maxBytes);
        case _ => OtherStepsPlan(config, w, step.op, step.victim);
      }
    }
  }

  lemma ProductsOrdered(a: int, b: int, size: nat)
    ensures a <= b ==> a * size <= b * size
  {
    assert b * size == a * size + (b - a) * size;
  }

  /** Over the limit there are at least `c` tracked entries. */
  lemma OverLimit(tracked: int, size: nat, m: nat, c: nat, bytes: int)
    requires bytes == tracked * size && bytes >= 0 && bytes % MODULUS >= m && m > (c - 1) * size
    ensures tracked >= c
  {
    assert bytes >= bytes % MODULUS;
    ProductsOrdered(tracked, c - 1, size);
  }

  /** An operation that decides to evict finds enough tracked for all that have decided. */
  lemma DecisionHasRoom<V>(config: Config<nat, V>, c: nat, w: World<nat>, w': World<nat>)
    requires Inv(config, w) && Inv(config, w') && Roomy(config, c) && w'.active <= c && Tracked(w) >= 0
    requires w.bytes % MODULUS >= config.policy.value.maxBytes
    ensures Tracked(w) >= |Evictors(w')|
  {
    SubsetCount(Evictors(w'), Active(w'));
    ProductsOrdered(0, Tracked(w), config.entrySize);
    OverLimit(Tracked(w), config.entrySize, config.policy.value.maxBytes, c, w.bytes);
  }

  lemma StepKeepsRoom<V>(config: Config<nat, V>, c: nat, w: World<nat>, step: Step<nat>)
    requires Inv(config, w) && Roomy(config, c)
    requires Tracked(w) >= |Evictors(w)| && Do(config, w, step).active <= c
    ensures Tracked(Do(config, w, step)) >= |Evictors(Do(config, w, step))|
  {
    var w' := Do(config, w, step);
    StepPlans(config, w, step);
    DoHasShape(config, w, step);
    if w' != w {
      PendingAfter(w, w', step.op, w'.ops[step.op]);
      EvictorsAfter(w, w', step.op, w'.ops[step.op]);
      if Plans(w, step.op) < Plans(w', step.op) {
        DoKeepsInv(config, w, step);
        DecisionHasRoom(config, c, w, w');
      }
    }
  }

  lemma {:induction false} RoomHolds<V>(config: Config<nat, V>, c: nat, steps: seq<Step<nat>>)
    requires AtMost(config, c, steps) && Roomy(config, c) && config.entrySize > 0
    ensures Tracked(Run(config, steps)) >= |Evictors(Run(config, steps))|
  {
    if steps == [] {
      var w := Run(config, steps);
      assert Pending(w) == {} && Evictors(w) == {};
    } else {
      RoomHolds(config, c, steps[..|steps| - 1]);
      BytesInEveryRun(config, steps[..|steps| - 1]);
      StepKeepsRoom(config, c, Run(config, steps[..|steps| - 1]), steps[|steps| - 1]);
    }
  }

  /** A full memory store with one untracked entry: as many accesses as it has entries subtract too much. */
  lemma CrowdUnderflows<V(!new)>(config: Config<nat, V>, c: nat)
    requires c >= 2 && CanFill(config) && config.policy.value.Memory? && !Roomy(config, c)
    ensures !NeverUnderflows(config, c)
  {
    var size := config.entrySize;
    var full, n := FillFromEmpty(config, c);
    if n > c - 1 {
      TimesMonotone(c - 1, n - 1, size);
    }
    var stale := InsertStale(config, c, full);
    var crowd := Gather(config, c, stale, n + 1);
    var w := Disperse(config, c, crowd, n + 1);
    OneTooMany(n, size);
  }

  /** Untracked entries piled up on a full store. */
  lemma {:induction false} PileUp<V(!new)>(config: Config<nat, V>, c: nat, w: World<nat>, u: nat)
    returns (w': World<nat>)
    requires Reached(config, c, w) && Idle(w) && c >= 2 && config.policy.Some? && w.entries != {}
    requires config.ShouldEvict(|w.entries|, w.bytes % MODULUS)
    ensures Reached(config, c, w') && Idle(w') && |w'.entries| == |w.entries| + u && w'.bytes == w.bytes
    decreases u
  {
    if u == 0 {
      w' := w;
    } else {
      var next := InsertStale(config, c, w);
      assert next.entries != {};
      w' := PileUp(config, c, next, u - 1);
    }
  }

  /** Accesses in pairs that each evict twice and insert once, while there are enough entries. */
  lemma {:induction false} Deplete<V(!new)>(config: Config<nat, V>, c: nat, w: World<nat>, k: nat, enough: nat)
    returns (w': World<nat>)
    requires Reached(config, c, w) && Idle(w) && c >= 2 && config.policy.Some?
    requires enough >= 2 && |w.entries| >= enough + k && !config.policy.value.Memory?
    requires EntryLimit(config) <= enough
    ensures Reached(config, c, w') && w'.bytes == w.bytes - k * config.TrackedSize()
    decreases k
  {
    if k == 0 {
      w' := w;
    } else {
      var next := InsertTwice(config, c, w);
      w' := Deplete(config, c, next, k - 1, enough);
      TimesSuccessor(k - 1, config.TrackedSize());
    }
  }

  ghost function EntryLimit<V>(config: Config<nat, V>): nat
    requires config.policy.Some? && !config.policy.value.Memory?
  {
    match config.policy.value
    case Lru(maxEntries) => maxEntries
    case Priority(maxEntries, _) => maxEntries
    case PriorityWithMemory(maxEntries, _, _) => maxEntries
  }

  lemma OneTooMany(n: nat, size: nat)
    requires size > 0
    ensures n * size - (n + 1) * size < 0
  {
    TimesSuccessor(n, size);
  }

  lemma PairsUnderflow<V(!new)>(config: Config<nat, V>, c: nat)
    requires c >= 2 && config.policy.Some? && config.policy.value.PriorityWithMemory? && config.entrySize > 0
    ensures !NeverUnderflows(config, c)
  {
    var enough := Max(2, EntryLimit(config));
    var full, n := FillFromEmpty(config, c);
    var piled := PileUp(config, c, full, enough + 1);
    var w := Deplete(config, c, piled, n + 1, enough);
    OneTooMany(n, config.TrackedSize());
  }

  lemma RoomySafe<V(!new)>(config: Config<nat, V>, c: nat, w: World<nat>)
    requires Reached(config, c, w) && Roomy(config, c) && config.entrySize > 0
    ensures w.bytes >= 0
  {
    var steps: seq<Step<nat>> :| AtMost(config, c, steps) && Run(config, steps) == w;
    RoomHolds(config, c, steps);
    BytesInEveryRun(config, steps);
    ProductsOrdered(0, Tracked(w), config.entrySize);
  }

  /**
   And the tracked bytes never go below zero in any of those runs if and only if it is one at a time, or the
   store tracks no bytes, or it is limited by bytes alone and the limit exceeds what the other accesses can
   take away.
  */
  lemma NoUnderflowExactly<V(!new)>(config: Config<nat, V>, c: nat)
    requires Fits(config)
    ensures NeverUnderflows(config, c) <==> c <= 1 || config.TrackedSize() == 0 || Roomy(config, c)
  {
    if c <= 1 || config.TrackedSize() == 0 {
      forall w: World<nat> | Reached(config, c, w) ensures w.bytes >= 0 {
        AloneOrUntrackedSafe(config, c, w);
      }
    } else if Roomy(config, c) {
      forall w: World<nat> | Reached(config, c, w) ensures w.bytes >= 0 {
        RoomySafe(config, c, w);
      }
    } else {
      TracksWhatItReaches(config);
      if config.policy.value.Memory? {
        CrowdUnderflows(config, c);
      } else {
        PairsUnderflow(config, c);
      }
    }
  }

  // ---- The entry limit ----

  ghost predicate EntriesWithin<V(!new)>(config: Config<nat, V>, c: nat, bound: nat) {
    forall w: World<nat> | Reached(config, c, w) :: |w.entries| <= bound
  }

  lemma OvershootsAnyBound<V(!new)>(config: Config<nat, V>, c: nat, bound: nat)
    requires c >= 2 && config.policy.Some? && !config.policy.value.Memory?
    ensures !EntriesWithin(config, c, bound)
  {
    var full, n := FillFromEmpty(config, c);
    var piled := PileUp(config, c, full, bound);
  }

  /** An access alone: what it knows of the room it has. */
  ghost predicate RoomKnown<V>(config: Config<nat, V>, w: World<nat>)
    requires config.policy.Some? && !config.policy.value.Memory?
  {
    var limit := Max(1, EntryLimit(config));
    && |w.entries| <= limit
    && forall op | op in w.ops ::
         match w.ops[op]
         case LenLoaded(_, len) => len == |w.entries|
         case Removing(_, v) => v in w.entries
         case Subtracting(_) => |w.entries| < limit
         case Entering(key, isNew) => key in w.entries || |w.entries| < limit
         case Inserting(_, _) => |w.entries| < limit
         case _ => true
  }

  ghost predicate Alone(w: World<nat>, op: OpId) {
    w.active <= 1 && op in w.ops && forall other | other in w.ops && other != op :: w.ops[other].Finished?
  }

  lemma RemovalKeepsRoom<V>(config: Config<nat, V>, w: World<nat>, op: OpId, victim: Option<nat>)
    requires config.policy.Some? && !config.policy.value.Memory? && RoomKnown(config, w) && Alone(w, op)
    requires w.ops[op].Removing?
    ensures RoomKnown(config, Advance(config, w, op, w.ops[op], victim))
  {
    assert !Locked(w, w.ops[op].victim);
    CountOne(w.entries, w.ops[op].victim);
  }

  lemma InsertionKeepsRoom<V>(config: Config<nat, V>, w: World<nat>, op: OpId, victim: Option<nat>)
    requires config.policy.Some? && !config.policy.value.Memory? && RoomKnown(config, w) && Alone(w, op)
    requires w.ops[op].Inserting?
    ensures RoomKnown(config, Advance(config, w, op, w.ops[op], victim))
  {
    CountOne(w.entries, w.ops[op].key);
  }

  lemma OtherStepsKeepRoom<V>(config: Config<nat, V>, w: World<nat>, op: OpId, victim: Option<nat>)
    requires config.policy.Some? && !config.policy.value.Memory? && RoomKnown(config, w) && Alone(w, op)
    requires NothingStale(w) && !w.ops[op].Removing? && !w.ops[op].Inserting?
    ensures RoomKnown(config, Advance(config, w, op, w.ops[op], victim))
  {
  }

  lemma AloneKeepsRoom<V>(config: Config<nat, V>, w: World<nat>, step: Step<nat>)
    requires config.policy.Some? && !config.policy.value.Memory?
    requires RoomKnown(config, w) && NothingStale(w) && Alone(w, step.op)
    ensures RoomKnown(config, Do(config, w, step))
  {
    if step.Proceed? {
      match w.ops[step.op] {
        case Removing(_, _) => RemovalKeepsRoom(config, w, step.op, step.victim);
        case Inserting(_, _) => InsertionKeepsRoom(config, w, step.op, step.victim);
        case _ => OtherStepsKeepRoom(config, w, step.op, step.victim);
      }
    }
  }

  lemma StartKeepsRoom<V>(config: Config<nat, V>, w: World<nat>, step: Step<nat>)
    requires config.policy.Some? && !config.policy.value.Memory?
    requires RoomKnown(config, w) && step.op !in Active(w)
    ensures RoomKnown(config, Do(config, w, step))
  {
  }

  lemma {:induction false} AloneRoomKnown<V>(config: Config<nat, V>, steps: seq<Step<nat>>)
    requires config.policy.Some? && !config.policy.value.Memory? && AtMost(config, 1, steps)
    ensures RoomKnown(config, Run(config, steps))
  {
    if steps != [] {
      var (w, step) := (Run(config, steps[..|steps| - 1]), steps[|steps| - 1]);
      AloneRoomKnown(config, steps[..|steps| - 1]);
      AloneAllTracked(config, steps[..|steps| - 1]);
      BytesInEveryRun(config, steps[..|steps| - 1]);
      if step.op in Active(w) {
        OthersFinished(w, step.op);
        AloneKeepsRoom(config, w, step);
      } else {
        StartKeepsRoom(config, w, step);
      }
    }
  }

  /**
   For every store limited in entries: at most max(1, limit) of them in all runs of at most `c` accesses at a
   time if and only if it is one at a time; with two there is no bound at all.
  */
  lemma EntryLimitExactly<V(!new)>(config: Config<nat, V>, c: nat)
    requires config.policy.Some? && !config.policy.value.Memory?
    ensures EntriesWithin(config, c, Max(1, EntryLimit(config))) <==> c <= 1
    ensures (exists bound: nat :: EntriesWithin(config, c, bound)) <==> c <= 1
  {
    var limit := Max(1, EntryLimit(config));
    if c <= 1 {
      forall w: World<nat> | Reached(config, c, w) ensures |w.entries| <= limit {
        var steps: seq<Step<nat>> :| AtMost(config, c, steps) && Run(config, steps) == w;
        FewerAtOnce(config, c, 1, steps);
        AloneRoomKnown(config, steps);
      }
      assert EntriesWithin(config, c, limit);
    } else {
      forall bound: nat ensures !EntriesWithin(config, c, bound) {
        OvershootsAnyBound(config, c, bound);
      }
    }
  }
}

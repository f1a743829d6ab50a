/**
 `with_entry_mut` of src/infrastructure/storage.rs under arbitrary interleaving: each access to the map, and
 each load or update of the tracked bytes, is one step of one operation. An operation's program counter says
 which comes next. The vacant entry an operation fills stays locked from its lookup to its insertion.
*/
module StoreThreads {
  import opened Wrappers
  import opened Machine
  import opened Collections
  import opened Eviction
  import opened Storage

  type OpId = nat

  datatype Pc<K> =
    // contains_key has answered
    | Checked(key: K, isNew: bool)
    // should_evict has loaded the length, not yet the bytes
    | LenLoaded(key: K, len: nat)
    | Sampling(key: K)
    | Removing(key: K, victim: K)
    | Subtracting(key: K)
    | Entering(key: K, isNew: bool)
    // inside or_insert_with, after the bytes were added if the key was new when checked
    | Inserting(key: K, tracked: bool)
    | Finished

  /** `untracked` counts the insertions whose bytes were not added, `active` the operations under way. */
  datatype World<K> = World(entries: set<K>, bytes: int, ops: map<OpId, Pc<K>>, untracked: nat, active: nat)

  /** `victim` is what the policy selects from the sample. */
  datatype Step<K> = Start(op: OpId, key: K) | Proceed(op: OpId, victim: Option<K>)

  function Move<K>(w: World<K>, op: OpId, pc: Pc<K>): World<K> {
    w.(ops := w.ops[op := pc])
  }

  ghost predicate Locked<K>(w: World<K>, key: K) {
    exists op :: op in w.ops && w.ops[op].Inserting? && w.ops[op].key == key
  }

  /**
   What sampling can come up with. The step is taken when the victim is visited, so it is there then; it may be
   gone when it is to be removed. A sample comes up empty only from an empty map, or when others move entries
   past it.
  */
  predicate CanSelect<K>(w: World<K>, victim: Option<K>) {
    if victim.Some? then victim.value in w.entries else w.entries == {} || w.active > 1
  }

  /**
   A step whose operation does not exist, exists already, is over, waits for a lock, or selects what it cannot,
   does nothing. The source's counter wraps; `bytes` is its value before wrapping.
  */
  ghost function Do<K, V>(config: Config<K, V>, w: World<K>, step: Step<K>): World<K> {
    if step.Start? <==> step.op in w.ops then w
    else
      match step
      case Start(op, key) => Move(w, op, Checked(key, key !in w.entries)).(active := w.active + 1)
      case Proceed(op, victim) => Advance(config, w, op, w.ops[op], victim)
  }

  ghost function Advance<K, V>(config: Config<K, V>, w: World<K>, op: OpId, pc: Pc<K>, victim: Option<K>): World<K> {
    match pc
    case Checked(key, isNew) =>
      Move(w, op, if isNew && config.policy.Some? then LenLoaded(key, |w.entries|) else Entering(key, isNew))
    case LenLoaded(key, len) =>
      Move(w, op, if config.ShouldEvict(len, w.bytes % MODULUS) then Sampling(key) else Entering(key, true))
    case Sampling(key) =>
      if !CanSelect(w, victim) then w
      else Move(w, op, if victim.Some? then Removing(key, victim.value) else Entering(key, true))
    case Removing(key, v) =>
      if Locked(w, v) then w
      else if v in w.entries then Move(w, op, Subtracting(key)).(entries := w.entries - {v})
      else Move(w, op, Entering(key, true))
    case Subtracting(key) => Move(w, op, Entering(key, true)).(bytes := w.bytes - config.TrackedSize())
    case Entering(key, isNew) =>
      if Locked(w, key) then w
      else if key in w.entries then Finish(w, op)
      else Move(w, op, Inserting(key, isNew)).(bytes := w.bytes + if isNew then config.TrackedSize() else 0)
    case Inserting(key, tracked) =>
      Finish(w, op).(entries := w.entries + {key}, untracked := w.untracked + if tracked then 0 else 1)
    case Finished => w
  }

  function Finish<K>(w: World<K>, op: OpId): World<K> {
    Move(w, op, Finished).(active := if w.active > 0 then w.active - 1 else 0)
  }

  ghost function Run<K, V>(config: Config<K, V>, steps: seq<Step<K>>): World<K> {
    if steps == [] then World({}, 0, map[], 0, 0)
    else Do(config, Run(config, steps[..|steps| - 1]), steps[|steps| - 1])
  }

  // ---- What the bytes are in every run ----

  /** Between a change of the map and its counter update: bytes added for an entry to come, or owed for one gone. */
  predicate Outstanding<K>(pc: Pc<K>) {
    (pc.Inserting? && pc.tracked) || pc.Subtracting?
  }

  ghost function Pending<K>(w: World<K>): set<OpId> {
    set op | op in w.ops && Outstanding(w.ops[op])
  }

  ghost function Active<K>(w: World<K>): set<OpId> {
    set op | op in w.ops && !w.ops[op].Finished?
  }

  ghost function Tracked<K>(w: World<K>): int {
    |w.entries| + |Pending(w)| - w.untracked
  }

  /** An operation inserting holds its vacant entry alone. */
  ghost predicate LocksHeld<K>(w: World<K>) {
    && (forall op | op in w.ops && w.ops[op].Inserting? :: w.ops[op].key !in w.entries)
    && (forall op, op' | op in w.ops && op' in w.ops && w.ops[op].Inserting? && w.ops[op'].Inserting? && op != op' ::
          w.ops[op].key != w.ops[op'].key)
  }

  ghost predicate Inv<K, V>(config: Config<K, V>, w: World<K>) {
    && LocksHeld(w)
    && w.active == |Active(w)|
    && w.bytes == Tracked(w) * config.TrackedSize()
  }

  lemma DoKeepsLocks<K, V>(config: Config<K, V>, w: World<K>, step: Step<K>)
    requires LocksHeld(w)
    ensures LocksHeld(Do(config, w, step))
  {
    if step.Proceed? && step.op in w.ops && w.ops[step.op].Entering? {
      assert forall op | op in w.ops && w.ops[op].Inserting? && w.ops[op].key == w.ops[step.op].key ::
          Locked(w, w.ops[step.op].key);
    }
  }

  lemma CountOne<T>(s: set<T>, x: T)
    ensures |s + {x}| == |s| + if x in s then 0 else 1
    ensures |s - {x}| == |s| - if x in s then 1 else 0
  {
    if x in s {
      assert s + {x} == s;
    } else {
      assert s - {x} == s;
    }
  }

  lemma PendingAfter<K>(w: World<K>, w': World<K>, op: OpId, pc: Pc<K>)
    requires w'.ops == w.ops[op := pc]
    ensures |Pending(w')| == |Pending(w)| - (if op in w.ops && Outstanding(w.ops[op]) then 1 else 0)
                             + (if Outstanding(pc) then 1 else 0)
  {
    CountOne(Pending(w), op);
    assert Pending(w') == if Outstanding(pc) then Pending(w) + {op} else Pending(w) - {op};
  }

  lemma ActiveAfter<K>(w: World<K>, w': World<K>, op: OpId, pc: Pc<K>)
    requires w'.ops == w.ops[op := pc]
    ensures |Active(w')| == |Active(w)| - (if op in w.ops && !w.ops[op].Finished? then 1 else 0)
                            + (if pc.Finished? then 0 else 1)
  {
    CountOne(Active(w), op);
    assert Active(w') == if pc.Finished? then Active(w) - {op} else Active(w) + {op};
  }

  /** One if the operation has a counter update outstanding. */
  ghost function Owes<K>(w: World<K>, op: OpId): int {
    if op in w.ops && Outstanding(w.ops[op]) then 1 else 0
  }

  /** What a step of `op` adds to the tracked entries. */
  ghost function Growth<K>(w: World<K>, w': World<K>, op: OpId): int {
    |w'.entries| - |w.entries| + Owes(w', op) - Owes(w, op) - w'.untracked + w.untracked
  }

  /** How one operation's program counter and the rest of the world change together. */
  ghost predicate Shape<K>(w: World<K>, w': World<K>, op: OpId, pc: Pc<K>, size: nat) {
    && w'.ops == w.ops[op := pc]
    && (op in w.ops ==> !w.ops[op].Finished?)
    && -1 <= Growth(w, w', op) <= 1
    && (Growth(w, w', op) == 1 ==> w'.bytes == w.bytes + size)
    && (Growth(w, w', op) == 0 ==> w'.bytes == w.bytes)
    && (Growth(w, w', op) == -1 ==> w'.bytes == w.bytes - size)
    && w'.active - w.active == (if op in w.ops then 0 else 1) - (if pc.Finished? && w.active > 0 then 1 else 0)
  }

  /** Every step but the removal of a victim and the insertion changes no entries. */
  lemma OtherStepsHaveShape<K, V>(config: Config<K, V>, w: World<K>, op: OpId, victim: Option<K>)
    requires op in w.ops && !w.ops[op].Removing? && !w.ops[op].Inserting?
    ensures var w' := Advance(config, w, op, w.ops[op], victim);
            w' == w || Shape(w, w', op, w'.ops[op], config.TrackedSize())
  {
  }

  lemma RemovalHasShape<K, V>(config: Config<K, V>, w: World<K>, op: OpId, victim: Option<K>)
    requires op in w.ops && w.ops[op].Removing?
    ensures var w' := Advance(config, w, op, w.ops[op], victim);
            w' == w || Shape(w, w', op, w'.ops[op], config.TrackedSize())
  {
    if w.ops[op].victim in w.entries {
      assert |w.entries - {w.ops[op].victim}| == |w.entries| - 1;
    }
  }

  lemma InsertionHasShape<K, V>(config: Config<K, V>, w: World<K>, op: OpId, victim: Option<K>)
    requires op in w.ops && w.ops[op].Inserting? && LocksHeld(w)
    ensures var w' := Advance(config, w, op, w.ops[op], victim);
            Shape(w, w', op, w'.ops[op], config.TrackedSize())
  {
    assert w.ops[op].key !in w.entries;
    assert |w.entries + {w.ops[op].key}| == |w.entries| + 1;
  }

  lemma DoHasShape<K, V>(config: Config<K, V>, w: World<K>, step: Step<K>)
    requires LocksHeld(w)
    ensures var w' := Do(config, w, step);
            w' == w || (step.op in w'.ops && Shape(w, w', step.op, w'.ops[step.op], config.TrackedSize()))
  {
    if step.Proceed? && step.op in w.ops {
      match w.ops[step.op] {
        case Removing(_, _) => RemovalHasShape(config, w, step.op, step.victim);
        case Inserting(_, _) => InsertionHasShape(config, w, step.op, step.victim);
        case _ => OtherStepsHaveShape(config, w, step.op, step.victim);
      }
    }
  }

  lemma ShapeKeepsAccounts<K>(w: World<K>, w': World<K>, op: OpId, pc: Pc<K>, size: nat)
    requires Shape(w, w', op, pc, size) && (op in w.ops || !pc.Finished?)
    requires w.active == |Active(w)| && w.bytes == Tracked(w) * size
    ensures w'.active == |Active(w')| && w'.bytes == Tracked(w') * size
  {
    PendingAfter(w, w', op, pc);
    ActiveAfter(w, w', op, pc);
    if op in w.ops {
      assert op in Active(w) && |Active(w)| > 0;
    }
    var d := Tracked(w') - Tracked(w);
    assert Tracked(w') * size == Tracked(w) * size + d * size;
  }

  lemma DoKeepsInv<K, V>(config: Config<K, V>, w: World<K>, step: Step<K>)
    requires Inv(config, w)
    ensures Inv(config, Do(config, w, step))
  {
    var w' := Do(config, w, step);
    DoKeepsLocks(config, w, step);
    DoHasShape(config, w, step);
    if w' != w {
      ShapeKeepsAccounts(w, w', step.op, w'.ops[step.op], config.TrackedSize());
    }
  }

  /**
   In every run, with every interleaving: the tracked bytes are the entry size times the entries, corrected for
   operations between a map access and its counter update, and less every untracked insertion so far.
  */
  lemma {:induction false} BytesInEveryRun<K, V>(config: Config<K, V>, steps: seq<Step<K>>)
    ensures Inv(config, Run(config, steps))
  {
    if steps == [] {
      var w := Run(config, steps);
      assert Pending(w) == {} && Active(w) == {};
    } else {
      BytesInEveryRun(config, steps[..|steps| - 1]);
      DoKeepsInv(config, Run(config, steps[..|steps| - 1]), steps[|steps| - 1]);
    }
  }

  ghost predicate Quiet<K>(w: World<K>) {
    Pending(w) == {}
  }

  /** So where no counter update is outstanding, the accounting is exact if and only if nothing went untracked. */
  lemma ExactIffAllTracked<K, V>(config: Config<K, V>, steps: seq<Step<K>>)
    requires Quiet(Run(config, steps)) && config.TrackedSize() > 0
    ensures var w := Run(config, steps);
            w.bytes == |w.entries| * config.TrackedSize() <==> w.untracked == 0
  {
    var w := Run(config, steps);
    assert w.bytes == Tracked(w) * config.TrackedSize() by {
      BytesInEveryRun(config, steps);
    }
    assert Tracked(w) == |w.entries| - w.untracked;
    FewerBytes(|w.entries|, w.untracked, config.TrackedSize());
  }

  lemma FewerBytes(n: nat, missing: nat, size: nat)
    requires size > 0
    ensures (n - missing) * size == n * size <==> missing == 0
  {
    assert (n - missing) * size == n * size - missing * size;
    if missing > 0 {
      assert missing * size > 0;
    }
  }

  /** While everything was tracked the counter never goes below zero. */
  lemma NoUnderflowIfAllTracked<K, V>(config: Config<K, V>, steps: seq<Step<K>>)
    requires Run(config, steps).untracked == 0
    ensures Run(config, steps).bytes >= 0
  {
    BytesInEveryRun(config, steps);
    TrackedBytes(config, Run(config, steps));
  }

  // ---- With how many operations at once it can go wrong ----

  /** Never more than `c` operations under way. */
  ghost predicate AtMost<K, V>(config: Config<K, V>, c: nat, steps: seq<Step<K>>) {
    Run(config, steps).active <= c && (steps != [] ==> AtMost(config, c, steps[..|steps| - 1]))
  }

  /** One operation at a time: a key found present stays present until its entry is taken. */
  ghost predicate NothingStale<K>(w: World<K>) {
    && w.untracked == 0
    && (forall op | op in w.ops :: match w.ops[op]
                                   case Checked(key, isNew) => isNew || key in w.entries
                                   case Entering(key, isNew) => isNew || key in w.entries
                                   case Inserting(key, tracked) => tracked
                                   case _ => true)
  }

  lemma OnlyOneActive<K>(w: World<K>, op: OpId, op': OpId)
    requires |Active(w)| <= 1 && op in Active(w) && op' in Active(w)
    ensures op == op'
  {
    SubsetCount({op}, Active(w));
  }

  lemma AloneNothingStale<K, V>(config: Config<K, V>, w: World<K>, step: Step<K>)
    requires NothingStale(w) && forall op | op in w.ops && op != step.op :: w.ops[op].Finished?
    ensures NothingStale(Do(config, w, step))
  {
  }

  lemma OthersFinished<K>(w: World<K>, op: OpId)
    requires |Active(w)| <= 1 && op in Active(w)
    ensures forall op' | op' in w.ops && op' != op :: w.ops[op'].Finished?
  {
    forall op' | op' in w.ops && op' != op ensures w.ops[op'].Finished? {
      if !w.ops[op'].Finished? {
        OnlyOneActive(w, op, op');
      }
    }
  }

  /** Starting, or a step of a finished operation, takes no entry away. */
  lemma StartNothingStale<K, V>(config: Config<K, V>, w: World<K>, step: Step<K>)
    requires NothingStale(w) && step.op !in Active(w)
    ensures NothingStale(Do(config, w, step))
  {
  }

  lemma {:induction false} AloneAllTracked<K, V>(config: Config<K, V>, steps: seq<Step<K>>)
    requires AtMost(config, 1, steps)
    ensures NothingStale(Run(config, steps))
  {
    if steps != [] {
      AloneAllTracked(config, steps[..|steps| - 1]);
      BytesInEveryRun(config, steps[..|steps| - 1]);
      var (w, step) := (Run(config, steps[..|steps| - 1]), steps[|steps| - 1]);
      if step.op in Active(w) {
        OthersFinished(w, step.op);
        AloneNothingStale(config, w, step);
      } else {
        StartNothingStale(config, w, step);
      }
    }
  }

  lemma {:induction false} FewerAtOnce<K, V>(config: Config<K, V>, c: nat, d: nat, steps: seq<Step<K>>)
    requires AtMost(config, c, steps) && c <= d
    ensures AtMost(config, d, steps)
  {
    if steps != [] {
      FewerAtOnce(config, c, d, steps[..|steps| - 1]);
    }
  }

  /** With one operation at a time, and whatever the configuration, the accounting is exact. */
  lemma AloneIsExact<K, V>(config: Config<K, V>, steps: seq<Step<K>>)
    requires AtMost(config, 1, steps)
    ensures var w := Run(config, steps);
            w.bytes >= 0 && (Quiet(w) ==> w.bytes == |w.entries| * config.TrackedSize())
  {
    AloneAllTracked(config, steps);
    BytesInEveryRun(config, steps);
    var w := Run(config, steps);
    assert w.untracked == 0;
    TrackedBytes(config, w);
  }

  lemma TrackedBytes<K, V>(config: Config<K, V>, w: World<K>)
    requires w.bytes == Tracked(w) * config.TrackedSize() && w.untracked == 0
    ensures w.bytes >= 0
    ensures Quiet(w) ==> w.bytes == |w.entries| * config.TrackedSize()
  {
    assert Tracked(w) >= 0;
    assert Quiet(w) ==> Tracked(w) == |w.entries|;
  }
}

/**
 The stream of strings an event signature is hashed from (src/domain/signature.rs). The hash function itself
 is not part of this model.
*/
module Signatures {
  import opened Wrappers
  import opened Collections
  import opened EventFields

  type Pair = (string, string)

  // ---- Ordered maps ----

  /** Order of strings by their characters. */
  predicate Less(a: string, b: string) {
    if b == [] then false
    else if a == [] then true
    else if a[0] != b[0] then a[0] < b[0]
    else Less(a[1..], b[1..])
  }

  lemma {:induction false} LessIsStrict(a: string, b: string)
    ensures !(Less(a, b) && Less(b, a)) && !Less(a, a)
    ensures Less(a, b) || Less(b, a) || a == b
  {
    if a != [] {
      LessIsStrict(a[1..], a[1..]);
      if b != [] {
        LessIsStrict(a[1..], b[1..]);
        if a[0] == b[0] && a[1..] == b[1..] {
          assert a == [a[0]] + a[1..] && b == [b[0]] + b[1..];
        }
      }
    }
  }

  lemma {:induction false} LessIsTransitive(a: string, b: string, c: string)
    requires Less(a, b) && Less(b, c)
    ensures Less(a, c)
  {
    if a != [] && a[0] == b[0] && b[0] == c[0] {
      LessIsTransitive(a[1..], b[1..], c[1..]);
    }
  }

  /** `b` continues `a`, or is greater where the two first differ. */
  ghost predicate DiffersAt(a: string, b: string, k: nat) {
    && k <= |a| && k < |b| && a[..k] == b[..k]
    && (k == |a| || a[k] < b[k])
  }

  lemma {:induction false} LessIsLexicographic(a: string, b: string)
    ensures Less(a, b) <==> exists k: nat :: DiffersAt(a, b, k)
  {
    if b != [] && a == [] {
      assert DiffersAt(a, b, 0);
    } else if b != [] {
      LessIsLexicographic(a[1..], b[1..]);
      if a[0] < b[0] {
        assert DiffersAt(a, b, 0);
      } else if a[0] == b[0] && Less(a, b) {
        var k: nat :| DiffersAt(a[1..], b[1..], k);
        assert a[..k + 1] == [a[0]] + a[1..][..k] && b[..k + 1] == [b[0]] + b[1..][..k];
        assert DiffersAt(a, b, k + 1);
      }
      if k: nat :| DiffersAt(a, b, k) {
        if k > 0 {
          assert a[..k][0] == b[..k][0];
          assert a[1..][..k - 1] == a[..k][1..] && b[1..][..k - 1] == b[..k][1..];
          assert DiffersAt(a[1..], b[1..], k - 1);
        }
      }
    }
  }

  /** The pairs of an ordered map, keys strictly ascending. */
  ghost predicate Ascending(ps: seq<Pair>) {
    forall i, j | 0 <= i < j < |ps| :: Less(ps[i].0, ps[j].0)
  }

  /** `BTreeMap::insert`: replaces the value of a key that is there. */
  function Insert(ps: seq<Pair>, key: string, value: string): seq<Pair> {
    if ps == [] then [(key, value)]
    else if key == ps[0].0 then [(key, value)] + ps[1..]
    else if Less(key, ps[0].0) then [(key, value)] + ps
    else [ps[0]] + Insert(ps[1..], key, value)
  }

  ghost function AsMap(ps: seq<Pair>): Fields {
    if ps == [] then map[] else AsMap(ps[1..])[ps[0].0 := ps[0].1]
  }

  lemma {:induction false} AsMapKeys(ps: seq<Pair>, key: string)
    ensures key in AsMap(ps) <==> exists i :: 0 <= i < |ps| && ps[i].0 == key
  {
    if ps != [] {
      AsMapKeys(ps[1..], key);
      if key in AsMap(ps[1..]) {
        var i :| 0 <= i < |ps[1..]| && ps[1..][i].0 == key;
        assert ps[i + 1].0 == key;
      }
      if key != ps[0].0 && exists i :: 0 <= i < |ps| && ps[i].0 == key {
        var i :| 0 <= i < |ps| && ps[i].0 == key;
        assert ps[1..][i - 1].0 == key;
      }
    }
  }

  lemma AscendingTail(ps: seq<Pair>)
    requires Ascending(ps) && ps != []
    ensures Ascending(ps[1..]) && ps[0].0 !in AsMap(ps[1..])
  {
    LessIsStrict(ps[0].0, ps[0].0);
    AsMapKeys(ps[1..], ps[0].0);
  }

  ghost predicate AllAbove(key: string, ps: seq<Pair>) {
    forall i | 0 <= i < |ps| :: Less(key, ps[i].0)
  }

  lemma AscendingCons(p: Pair, ps: seq<Pair>)
    requires Ascending(ps) && AllAbove(p.0, ps)
    ensures Ascending([p] + ps)
  {
  }

  lemma {:induction false} InsertKeepsAbove(low: string, ps: seq<Pair>, key: string, value: string)
    requires AllAbove(low, ps) && Less(low, key)
    ensures AllAbove(low, Insert(ps, key, value))
  {
    if ps != [] {
      InsertKeepsAbove(low, ps[1..], key, value);
    }
  }

  lemma {:induction false} InsertAscends(ps: seq<Pair>, key: string, value: string)
    requires Ascending(ps)
    ensures Ascending(Insert(ps, key, value))
  {
    if ps != [] {
      var head, tail := ps[0], ps[1..];
      assert Ascending(tail) && AllAbove(head.0, tail);
      LessIsStrict(key, head.0);
      if key == head.0 {
        AscendingCons((key, value), tail);
      } else if Less(key, head.0) {
        forall j | 0 <= j < |ps| ensures Less(key, ps[j].0) {
          if j > 0 {
            LessIsTransitive(key, head.0, ps[j].0);
          }
        }
        AscendingCons((key, value), ps);
      } else {
        InsertAscends(tail, key, value);
        InsertKeepsAbove(head.0, tail, key, value);
        AscendingCons(head, Insert(tail, key, value));
      }
    }
  }

  lemma {:induction false} InsertUpdates(ps: seq<Pair>, key: string, value: string)
    ensures AsMap(Insert(ps, key, value)) == AsMap(ps)[key := value]
  {
    if ps == [] {
      assert Insert(ps, key, value)[1..] == [];
    } else {
      var tail := ps[1..];
      if key == ps[0].0 {
        assert Insert(ps, key, value)[1..] == tail;
      } else if Less(key, ps[0].0) {
        assert Insert(ps, key, value)[1..] == ps;
      } else {
        InsertUpdates(tail, key, value);
        assert Insert(ps, key, value)[1..] == Insert(tail, key, value);
      }
    }
  }

  /** The order of iteration is a function of the contents: two ordered maps with equal contents are equal. */
  lemma {:induction false} AscendingIsCanonical(ps: seq<Pair>, qs: seq<Pair>)
    requires Ascending(ps) && Ascending(qs) && AsMap(ps) == AsMap(qs)
    ensures ps == qs
  {
    EmptyAsMap(ps);
    EmptyAsMap(qs);
    if ps != [] {
      AscendingTail(ps);
      AscendingTail(qs);
      FirstKeysAgree(ps, qs);
      assert AsMap(ps)[ps[0].0] == ps[0].1 && AsMap(qs)[qs[0].0] == qs[0].1;
      assert ps[0] == qs[0];
      assert AsMap(ps[1..]) == AsMap(ps) - {ps[0].0};
      assert AsMap(qs[1..]) == AsMap(qs) - {qs[0].0};
      AscendingIsCanonical(ps[1..], qs[1..]);
      assert ps == [ps[0]] + ps[1..] && qs == [qs[0]] + qs[1..];
    }
  }

  lemma EmptyAsMap(ps: seq<Pair>)
    ensures AsMap(ps) == map[] <==> ps == []
  {
    if ps != [] {
      assert ps[0].0 in AsMap(ps);
    }
  }

  lemma FirstKeysAgree(ps: seq<Pair>, qs: seq<Pair>)
    requires Ascending(ps) && Ascending(qs) && AsMap(ps) == AsMap(qs) && ps != [] && qs != []
    ensures ps[0].0 == qs[0].0
  {
    AsMapKeys(ps, ps[0].0);
    AsMapKeys(qs, ps[0].0);
    AsMapKeys(qs, qs[0].0);
    AsMapKeys(ps, qs[0].0);
    var i :| 0 <= i < |qs| && qs[i].0 == ps[0].0;
    var j :| 0 <= j < |ps| && ps[j].0 == qs[0].0;
    LessIsStrict(ps[0].0, qs[0].0);
  }

  function FromInsertions(insertions: seq<Pair>): seq<Pair> {
    if insertions == [] then []
    else
      var last := insertions[|insertions| - 1];
      Insert(FromInsertions(insertions[..|insertions| - 1]), last.0, last.1)
  }

  /** What the insertions leave under each name: the last value inserted. */
  ghost function LastInserted(insertions: seq<Pair>): Fields {
    if insertions == [] then map[]
    else
      var last := insertions[|insertions| - 1];
      LastInserted(insertions[..|insertions| - 1])[last.0 := last.1]
  }

  lemma {:induction false} InsertionsCorrect(insertions: seq<Pair>)
    ensures Ascending(FromInsertions(insertions))
    ensures AsMap(FromInsertions(insertions)) == LastInserted(insertions)
  {
    if insertions != [] {
      var init, last := insertions[..|insertions| - 1], insertions[|insertions| - 1];
      InsertionsCorrect(init);
      InsertAscends(FromInsertions(init), last.0, last.1);
      InsertUpdates(FromInsertions(init), last.0, last.1);
    }
  }

  // ---- The stream ----

  ghost function Flatten(fields: seq<Pair>): (s: seq<string>)
    ensures |s| == 2 * |fields|
  {
    if fields == [] then [] else Flatten(fields[..|fields| - 1]) + [fields[|fields| - 1].0, fields[|fields| - 1].1]
  }

  ghost function Stream(level: string, message: string, fields: seq<Pair>, target: Option<string>): seq<string> {
    [level, message] + Flatten(fields) + if target.Some? then [target.value] else []
  }

  /** Level, message, each field's name and then its value, and the target if there is one; nothing else. */
  ghost predicate InOrder(level: string, message: string, fields: seq<Pair>, target: Option<string>, s: seq<string>) {
    && |s| == 2 + 2 * |fields| + (if target.Some? then 1 else 0)
    && s[0] == level && s[1] == message
    && (forall i | 0 <= i < |fields| :: s[2 + 2 * i] == fields[i].0 && s[3 + 2 * i] == fields[i].1)
    && (target.Some? ==> s[|s| - 1] == target.value)
  }

  lemma {:induction false} FlattenAt(fields: seq<Pair>, i: nat)
    requires i < |fields|
    ensures Flatten(fields)[2 * i] == fields[i].0 && Flatten(fields)[2 * i + 1] == fields[i].1
  {
    if i < |fields| - 1 {
      FlattenAt(fields[..|fields| - 1], i);
    }
  }

  lemma StreamInOrder(level: string, message: string, fields: seq<Pair>, target: Option<string>)
    ensures InOrder(level, message, fields, target, Stream(level, message, fields, target))
  {
    var s := Stream(level, message, fields, target);
    forall i | 0 <= i < |fields| ensures s[2 + 2 * i] == fields[i].0 && s[3 + 2 * i] == fields[i].1 {
      FlattenAt(fields, i);
      assert s[2 + 2 * i] == Flatten(fields)[2 * i] && s[3 + 2 * i] == Flatten(fields)[2 * i + 1];
    }
  }

  /** `EventSignature::new` up to the hasher: what is written to it, in order. */
  method FeedHasher(level: string, message: string, fields: seq<Pair>, target: Option<string>)
    returns (fed: seq<string>)
    ensures fed == Stream(level, message, fields, target)
    ensures InOrder(level, message, fields, target, fed)
  {
    StreamInOrder(level, message, fields, target);
    fed := [];
    fed := fed + [level];
    fed := fed + [message];
    for i := 0 to |fields|
      invariant fed == [level, message] + Flatten(fields[..i])
    {
      assert fields[..i + 1] == fields[..i] + [fields[i]] && fields[..i + 1][..i] == fields[..i];
      fed := fed + [fields[i].0];
      fed := fed + [fields[i].1];
    }
    assert fields[..|fields|] == fields;
    if target.Some? {
      fed := fed + [target.value];
    }
  }

  lemma {:induction false} FlattenInjective(fs: seq<Pair>, gs: seq<Pair>)
    requires Flatten(fs) == Flatten(gs)
    ensures fs == gs
  {
    assert |Flatten(fs)| == |Flatten(gs)|;
    if fs != [] {
      var f, g := fs[|fs| - 1], gs[|gs| - 1];
      var fi, gi := fs[..|fs| - 1], gs[..|gs| - 1];
      var n := 2 * |fi|;
      assert Flatten(fs)[n] == f.0 && Flatten(gs)[n] == g.0;
      assert Flatten(fs)[n + 1] == f.1 && Flatten(gs)[n + 1] == g.1;
      assert Flatten(fi) == Flatten(fs)[..n] && Flatten(gi) == Flatten(gs)[..n];
      FlattenInjective(fi, gi);
      assert fs == fi + [f] && gs == gi + [g];
    }
  }

  /** The stream determines all four parts; its length is odd exactly when a target is present. */
  lemma StreamInjective(level: string, message: string, fields: seq<Pair>, target: Option<string>,
                        level': string, message': string, fields': seq<Pair>, target': Option<string>)
    requires Stream(level, message, fields, target) == Stream(level', message', fields', target')
    ensures level == level' && message == message' && fields == fields' && target == target'
    ensures |Stream(level, message, fields, target)| % 2 == 1 <==> target.Some?
  {
    var s, s' := Stream(level, message, fields, target), Stream(level', message', fields', target');
    assert |s| == 2 + 2 * |fields| + if target.Some? then 1 else 0;
    assert |s'| == 2 + 2 * |fields'| + if target'.Some? then 1 else 0;
    assert target.Some? <==> target'.Some?;
    assert |fields| == |fields'|;
    assert s[0] == s'[0] && s[1] == s'[1];
    var n := 2 * |fields|;
    assert s[2..2 + n] == Flatten(fields) && s'[2..2 + n] == Flatten(fields');
    FlattenInjective(fields, fields');
    if target.Some? {
      assert s[2 + n] == s'[2 + n];
    }
  }

  /** Inserting the same fields in another order, or overwriting values on the way, changes nothing. */
  lemma InsertionOrderIrrelevant(level: string, message: string, target: Option<string>,
                                 insertions: seq<Pair>, insertions': seq<Pair>)
    ensures Stream(level, message, FromInsertions(insertions), target)
         == Stream(level, message, FromInsertions(insertions'), target)
       <==> LastInserted(insertions) == LastInserted(insertions')
  {
    InsertionsCorrect(insertions);
    InsertionsCorrect(insertions');
    if LastInserted(insertions) == LastInserted(insertions') {
      AscendingIsCanonical(FromInsertions(insertions), FromInsertions(insertions'));
    }
    if Stream(level, message, FromInsertions(insertions), target)
       == Stream(level, message, FromInsertions(insertions'), target) {
      StreamInjective(level, message, FromInsertions(insertions), target,
                      level, message, FromInsertions(insertions'), target);
    }
  }

  // ---- End to end ----

  /** An event as the layer sees it, with the caches of the spans around it. */
  datatype LayerEvent = LayerEvent(level: string, name: string, target: string, fields: Fields,
                                   scope: seq<Option<Fields>>)

  /** The stream of an event whose combined fields iterate as `ps`. */
  ghost predicate StreamOf(configured: seq<string>, excluded: set<string>, e: LayerEvent, stream: seq<string>) {
    exists context: Fields, ps: seq<Pair> ::
      && Resolves(configured, e.scope, context) && Ascending(ps)
      && AsMap(ps) == Combine(context, ExtractEventFields(excluded, e.fields).0)
      && stream == Stream(e.level, e.name, ps, Some(e.target))
  }

  lemma EqualByLookup(a: Fields, b: Fields)
    requires forall n: string :: Lookup(a, n) == Lookup(b, n)
    ensures a == b
  {
    forall n: string ensures n in a <==> n in b {
      assert Lookup(a, n) == Lookup(b, n);
    }
    forall n | n in a ensures a[n] == b[n] {
      assert Lookup(a, n) == Lookup(b, n);
    }
  }

  /**
   Two events are hashed from the same stream exactly when they agree on level, name, target and on what every
   field name resolves to.
  */
  lemma SameStreamIffSameBucket(configured: seq<string>, excluded: set<string>, e: LayerEvent, e': LayerEvent,
                                stream: seq<string>, stream': seq<string>)
    requires StreamOf(configured, excluded, e, stream) && StreamOf(configured, excluded, e', stream')
    ensures stream == stream'
       <==> && e.level == e'.level && e.name == e'.name && e.target == e'.target
            && forall n: string :: Resolved(configured, excluded, e.scope, e.fields, n)
                                == Resolved(configured, excluded, e'.scope, e'.fields, n)
  {
    var context, ps :|
      && Resolves(configured, e.scope, context) && Ascending(ps)
      && AsMap(ps) == Combine(context, ExtractEventFields(excluded, e.fields).0)
      && stream == Stream(e.level, e.name, ps, Some(e.target));
    var context', ps' :|
      && Resolves(configured, e'.scope, context') && Ascending(ps')
      && AsMap(ps') == Combine(context', ExtractEventFields(excluded, e'.fields).0)
      && stream' == Stream(e'.level, e'.name, ps', Some(e'.target));
    MergeResolves(configured, excluded, e.scope, e.fields, context);
    MergeResolves(configured, excluded, e'.scope, e'.fields, context');
    assert forall n: string :: Lookup(AsMap(ps), n) == Resolved(configured, excluded, e.scope, e.fields, n);
    assert forall n: string :: Lookup(AsMap(ps'), n) == Resolved(configured, excluded, e'.scope, e'.fields, n);
    if stream == stream' {
      StreamInjective(e.level, e.name, ps, Some(e.target), e'.level, e'.name, ps', Some(e'.target));
    }
    if forall n: string :: Resolved(configured, excluded, e.scope, e.fields, n)
                        == Resolved(configured, excluded, e'.scope, e'.fields, n) {
      forall n: string ensures Lookup(AsMap(ps), n) == Lookup(AsMap(ps'), n) {
        assert Lookup(AsMap(ps), n) == Resolved(configured, excluded, e.scope, e.fields, n);
      }
      EqualByLookup(AsMap(ps), AsMap(ps'));
      AscendingIsCanonical(ps, ps');
    }
  }

  // ---- Every event has a stream, and one only ----

  /** Inserting fields one by one, in whatever order, into an ordered map: `BTreeMap::extend`. */
  method ExtendOrdered(ps: seq<Pair>, fields: Fields) returns (extended: seq<Pair>)
    requires Ascending(ps)
    ensures Ascending(extended) && AsMap(extended) == AsMap(ps) + fields
  {
    extended := ps;
    var rest := fields;
    while rest != map[]
      invariant Ascending(extended)
      invariant AsMap(extended) + rest == AsMap(ps) + fields
      decreases |rest|
    {
      var name :| name in rest;
      OneFewer(rest, name);
      MoveOne(AsMap(extended), rest, name);
      InsertAscends(extended, name, rest[name]);
      InsertUpdates(extended, name, rest[name]);
      extended := Insert(extended, name, rest[name]);
      rest := rest - {name};
    }
    assert AsMap(extended) + map[] == AsMap(extended);
  }

  lemma StreamFits(configured: seq<string>, excluded: set<string>, e: LayerEvent, context: Fields, ps: seq<Pair>)
    requires Resolves(configured, e.scope, context) && Ascending(ps)
    requires AsMap(ps) == Combine(context, ExtractEventFields(excluded, e.fields).0)
    ensures StreamOf(configured, excluded, e, Stream(e.level, e.name, ps, Some(e.target)))
  {
  }

  /** From an event to what its signature is hashed from: `event_enabled` up to the hasher. */
  method StreamOfEvent(configured: seq<string>, excluded: set<string>, e: LayerEvent) returns (stream: seq<string>)
    ensures StreamOf(configured, excluded, e, stream)
  {
    var context := ExtractSpanContext(configured, e.scope);
    var (eventFields, message) := ExtractEventFields(excluded, e.fields);
    var collected := ExtendOrdered([], context);
    assert AsMap([]) + context == context;
    var combined := ExtendOrdered(collected, eventFields);
    StreamFits(configured, excluded, e, context, combined);
    stream := FeedHasher(e.level, e.name, combined, Some(e.target));
  }

  /** The ordered map with the given contents. */
  lemma {:induction false} Ordered(fields: Fields) returns (ps: seq<Pair>)
    ensures Ascending(ps) && AsMap(ps) == fields
    decreases |fields|
  {
    if fields == map[] {
      ps := [];
    } else {
      var name :| name in fields;
      OneFewer(fields, name);
      var rest := Ordered(fields - {name});
      InsertAscends(rest, name, fields[name]);
      InsertUpdates(rest, name, fields[name]);
      ps := Insert(rest, name, fields[name]);
    }
  }

  lemma EveryEventHasOneStream(configured: seq<string>, excluded: set<string>, e: LayerEvent)
    ensures exists stream :: StreamOf(configured, excluded, e, stream)
    ensures forall stream, stream' ::
              StreamOf(configured, excluded, e, stream) && StreamOf(configured, excluded, e, stream') ==>
                stream == stream'
  {
    var context := map n | n in configured && Nearest(e.scope, n).Some? :: Nearest(e.scope, n).value;
    assert Resolves(configured, e.scope, context);
    var ps := Ordered(Combine(context, ExtractEventFields(excluded, e.fields).0));
    assert StreamOf(configured, excluded, e, Stream(e.level, e.name, ps, Some(e.target)));
    forall stream, stream' | StreamOf(configured, excluded, e, stream) && StreamOf(configured, excluded, e, stream')
      ensures stream == stream'
    {
      SameStreamIffSameBucket(configured, excluded, e, e, stream, stream');
    }
  }
}

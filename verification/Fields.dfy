/**
 Which fields an event is bucketed by: span context resolved from the enclosing spans, event fields, and
 their merge (src/infrastructure/layer.rs).
*/
module EventFields {
  import opened Wrappers
  import opened Collections

  type Fields = map<string, string>

  function Lookup(fields: Fields, name: string): Option<string> {
    if name in fields then Some(fields[name]) else None
  }

  /**
   The reference: the value in the innermost span that caches the field. The scope lists the cached fields of
   the spans around the event, innermost first; a span may have no cache.
  */
  function Nearest(scope: seq<Option<Fields>>, name: string): Option<string> {
    if scope == [] then None
    else if scope[0].Some? && name in scope[0].value then Some(scope[0].value[name])
    else Nearest(scope[1..], name)
  }

  ghost predicate Caches(span: Option<Fields>, name: string) {
    span.Some? && name in span.value
  }

  /** `Nearest` finds a value exactly when some span caches the field, and then the innermost such span's. */
  lemma {:induction false} NearestIsInnermost(scope: seq<Option<Fields>>, name: string)
    ensures Nearest(scope, name).None? <==> forall i | 0 <= i < |scope| :: !Caches(scope[i], name)
    ensures forall i | 0 <= i < |scope| && Caches(scope[i], name) ::
              (forall j | 0 <= j < i :: !Caches(scope[j], name)) ==>
                Nearest(scope, name) == Some(scope[i].value[name])
  {
    if scope != [] && !Caches(scope[0], name) {
      NearestIsInnermost(scope[1..], name);
      assert forall i | 0 < i < |scope| :: scope[i] == scope[1..][i - 1];
      forall i | 0 <= i < |scope| && Caches(scope[i], name) && forall j | 0 <= j < i :: !Caches(scope[j], name)
        ensures Nearest(scope, name) == Some(scope[i].value[name])
      {
        assert forall j | 0 <= j < i - 1 :: scope[1..][j] == scope[j + 1];
      }
    }
  }

  lemma {:induction false} NearestSnoc(scope: seq<Option<Fields>>, span: Option<Fields>, name: string)
    ensures Nearest(scope + [span], name)
         == if Nearest(scope, name).Some? then Nearest(scope, name)
            else if Caches(span, name) then Some(span.value[name]) else None
  {
    if scope != [] {
      NearestSnoc(scope[1..], span, name);
      assert (scope + [span])[1..] == scope[1..] + [span];
    }
  }

  lemma {:induction false} NearestPrefix(scope: seq<Option<Fields>>, n: nat, name: string)
    requires n <= |scope| && Nearest(scope[..n], name).Some?
    ensures Nearest(scope, name) == Nearest(scope[..n], name)
  {
    if n > 0 && !Caches(scope[0], name) {
      assert scope[..n][1..] == scope[1..][..n - 1];
      NearestPrefix(scope[1..], n - 1, name);
    }
  }

  /** As many fields found as configured means all are found. */
  lemma FullContext(configured: seq<string>, context: Fields)
    requires (forall n | n in context :: n in configured) && |context| == |configured|
    ensures forall n | n in configured :: n in context
  {
    var names := Elements(configured);
    ElementsCount(configured);
    assert context.Keys <= names;
    var missing := names - context.Keys;
    assert names == context.Keys + missing;
    assert |missing| == |names| - |context.Keys|;
    assert missing == {};
  }

  /** Exactly the configured fields the scope resolves, with their resolved values. */
  ghost predicate Resolves(configured: seq<string>, scope: seq<Option<Fields>>, context: Fields) {
    && (forall n | n in context :: n in configured)
    && (forall n | n in configured :: Lookup(context, n) == Nearest(scope, n))
  }

  /** One span of the scope: fields not collected yet are taken from its cache. */
  method CollectFromSpan(configured: seq<string>, stored: Fields, context: Fields) returns (collected: Fields)
    ensures forall n | n in collected :: n in context || n in configured
    ensures forall n | n in context :: Lookup(collected, n) == Lookup(context, n)
    ensures forall n | n in configured && n !in context :: Lookup(collected, n) == Lookup(stored, n)
  {
    collected := context;
    for i := 0 to |configured|
      invariant forall n | n in collected :: n in context || n in configured[..i]
      invariant forall n | n in context :: Lookup(collected, n) == Lookup(context, n)
      invariant forall n | n in configured[..i] && n !in context :: Lookup(collected, n) == Lookup(stored, n)
    {
      var name := configured[i];
      assert configured[..i + 1] == configured[..i] + [name];
      if name in collected {
        continue;
      }
      if name in stored {
        collected := collected[name := stored[name]];
      }
    }
    assert configured[..|configured|] == configured;
  }

  /** `extract_span_context`: stops early, skips what it has, and still resolves every field. */
  method ExtractSpanContext(configured: seq<string>, scope: seq<Option<Fields>>) returns (context: Fields)
    ensures Resolves(configured, scope, context)
  {
    context := map[];
    if configured == [] {
      return;
    }
    var i := 0;
    while i < |scope|
      invariant 0 <= i <= |scope|
      invariant Resolves(configured, scope[..i], context)
    {
      var span := scope[i];
      ghost var before := context;
      if span.Some? {
        context := CollectFromSpan(configured, span.value, context);
      }
      forall n | n in configured ensures Lookup(context, n) == Nearest(scope[..i + 1], n) {
        assert scope[..i + 1] == scope[..i] + [span];
        NearestSnoc(scope[..i], span, n);
        assert Lookup(before, n) == Nearest(scope[..i], n);
      }
      i := i + 1;
      if |context| == |configured| {
        FullContext(configured, context);
        forall n | n in configured ensures Lookup(context, n) == Nearest(scope, n) {
          NearestPrefix(scope, i, n);
        }
        return;
      }
    }
    assert scope[..i] == scope;
  }

  /** `extract_event_fields`: the fields that count, and the message, which exclusion does not touch. */
  function ExtractEventFields(excluded: set<string>, all: Fields): (Fields, Option<string>) {
    (if excluded == {} then all else map n | n in all && n !in excluded :: all[n], Lookup(all, "message"))
  }

  /** The message of an event is its "message" field, excluded from bucketing or not; the rest keep their values. */
  lemma MessageIsNeverExcluded(excluded: set<string>, all: Fields)
    ensures var (fields, message) := ExtractEventFields(excluded, all);
            && (message.Some? <==> "message" in all)
            && (message.Some? ==> message.value == all["message"])
            && forall n: string :: Lookup(fields, n) == if n in excluded then None else Lookup(all, n)
  {
  }

  /** `combined_fields.extend(event_fields)`. */
  function Combine(context: Fields, eventFields: Fields): Fields {
    context + eventFields
  }

  /** What one field name contributes to the signature: the reference for the whole merge. */
  ghost function Resolved(configured: seq<string>, excluded: set<string>, scope: seq<Option<Fields>>, all: Fields,
                          name: string): Option<string>
  {
    if name in all && name !in excluded then Some(all[name])
    else if name in configured then Nearest(scope, name)
    else None
  }

  /**
   A field of the event that is not excluded always wins; otherwise the innermost span decides, also for an
   excluded name, and only for configured names.
  */
  lemma MergeResolves(configured: seq<string>, excluded: set<string>, scope: seq<Option<Fields>>, all: Fields,
                      context: Fields)
    requires Resolves(configured, scope, context)
    ensures var combined := Combine(context, ExtractEventFields(excluded, all).0);
            forall n: string :: Lookup(combined, n) == Resolved(configured, excluded, scope, all, n)
  {
    var combined := Combine(context, ExtractEventFields(excluded, all).0);
    forall n: string ensures Lookup(combined, n) == Resolved(configured, excluded, scope, all, n) {
      if n in context {
        assert n in configured;
      }
      if n in configured {
        assert Lookup(context, n) == Nearest(scope, n);
      }
    }
  }
}

/**
 Abstract effects of the OpenTelemetry tracer that the dispatcher advice relies on.

 The tracer keeps a table of every span it has started (with the attributes this model
 cares about: name, resource name, error, how often `end()` was called) and an ambient
 context: the chain of spans made current by `withSpan`, innermost last. A scope remembers
 the context that was current when it was opened and closing it reinstates that context.
 */
module Tracing {
  import opened Wrappers

  /** Identity of a span; the tracer hands them out in increasing order. */
  type SpanId = nat

  /** Identity of a `Throwable` raised by the dispatched servlet. */
  type ErrorId = nat

  /** What is known about one started span. `valid` is whether its span context is valid;
      `ends` counts the calls of `end()` on it. */
  datatype SpanRecord = SpanRecord(
    name: string,
    resource: Option<string>,
    valid: bool,
    error: Option<ErrorId>,
    ends: nat)

  /** The object returned by `withSpan`: it holds the context to reinstate on close. */
  datatype Scope = Scope(previous: seq<SpanId>)

  datatype Tracer = Tracer(context: seq<SpanId>, spans: map<SpanId, SpanRecord>, nextId: SpanId)

  /** Every span id in use was handed out by the tracer, and the ambient context only
      names started spans. */
  ghost predicate Wf(t: Tracer) {
    && (forall id | id in t.spans :: id < t.nextId)
    && (forall i | 0 <= i < |t.context| :: t.context[i] in t.spans)
  }

  /** `getCurrentSpan()`: the innermost span of the ambient context, if any. */
  function CurrentSpan(t: Tracer): Option<SpanId> {
    if |t.context| == 0 then None else Some(t.context[|t.context| - 1])
  }

  /** `getCurrentSpan().getContext().isValid()`: with no current span the tracer answers
      with the invalid span. */
  predicate CurrentSpanIsValid(t: Tracer) {
    match CurrentSpan(t)
    case None => false
    case Some(id) => id in t.spans && t.spans[id].valid
  }

  /** `spanBuilder(name).startSpan()`: a fresh, valid, not yet ended span. */
  function StartSpan(t: Tracer, name: string): (r: (Tracer, SpanId))
    ensures r.1 in r.0.spans && r.0.spans[r.1] == SpanRecord(name, None, true, None, 0)
    ensures Wf(t) ==> r.1 !in t.spans && Wf(r.0)
    ensures forall id | id in t.spans && id != r.1 :: id in r.0.spans && r.0.spans[id] == t.spans[id]
    ensures r.0.context == t.context && r.0.nextId > r.1
  {
    var id := t.nextId;
    (t.(spans := t.spans[id := SpanRecord(name, None, true, None, 0)], nextId := id + 1), id)
  }

  /** `span.setAttribute(RESOURCE_NAME, target)`. */
  function SetResource(t: Tracer, id: SpanId, target: Option<string>): Tracer {
    if id in t.spans then t.(spans := t.spans[id := t.spans[id].(resource := target)]) else t
  }

  /** The decorator's `onError(span, throwable)`: marks the span only when something was thrown. */
  function RecordError(t: Tracer, id: SpanId, thrown: Option<ErrorId>): Tracer {
    if id in t.spans && thrown.Some? then t.(spans := t.spans[id := t.spans[id].(error := thrown)])
    else t
  }

  /** `span.end()`. */
  function EndSpan(t: Tracer, id: SpanId): Tracer {
    if id in t.spans then t.(spans := t.spans[id := t.spans[id].(ends := t.spans[id].ends + 1)])
    else t
  }

  /** `withSpan(span)`: makes `id` the current span and returns the scope that undoes it. */
  function WithSpan(t: Tracer, id: SpanId): (r: (Tracer, Scope)) {
    (t.(context := t.context + [id]), Scope(t.context))
  }

  /** `scope.close()`: reinstates the context that was current when the scope was opened. */
  function CloseScope(t: Tracer, s: Scope): Tracer {
    t.(context := s.previous)
  }
}

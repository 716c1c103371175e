/**
 The enter and exit hooks that wrap `RequestDispatcher.forward` and `RequestDispatcher.include`.

 The request attribute `SPAN_ATTRIBUTE` (the request slot) tells a dispatched servlet which span
 to use as its parent. On entry the hooks start a child span, save the slot, point the slot at
 the child and make the child current; on exit they put the saved slot value back, record the
 thrown error, end the child and close its scope.
 */
module Dispatcher {
  import opened Wrappers
  import opened Tracing

  /** The two dispatcher methods the advice is applied to. */
  datatype DispatchMethod = Forward | Include

  function MethodName(m: DispatchMethod): string {
    match m
    case Forward => "forward"
    case Include => "include"
  }

  /** The method-name part of the matcher `named("forward").or(named("include"))`. */
  function MatchMethod(name: string): (r: Option<DispatchMethod>)
    ensures r.Some? <==> name == "forward" || name == "include"
    ensures r.Some? ==> MethodName(r.value) == name
  {
    if name == "forward" then Some(Forward)
    else if name == "include" then Some(Include)
    else None
  }

  /** Every instrumented method is matched back to itself. */
  lemma MatchMethodName(m: DispatchMethod)
    ensures MatchMethod(MethodName(m)) == Some(m)
  {
  }

  const SpanPrefix: string := "servlet."

  function SpanName(m: DispatchMethod): string {
    SpanPrefix + MethodName(m)
  }

  /** Identity of a `RequestDispatcher` instance. */
  type DispatcherId = nat

  /** The instrumentation context store `RequestDispatcher -> String`, filled elsewhere. */
  type TargetStore = map<DispatcherId, string>

  function LookupTarget(store: TargetStore, d: DispatcherId): Option<string> {
    if d in store then Some(store[d]) else None
  }

  /** The request slot and the tracer, the only state the hooks touch. */
  datatype State = State(slot: Option<SpanId>, tracer: Tracer)

  /** What the enter hook hands to the exit hook: `null`, or the `SpanWithScope` together with
      the local `_originalServletSpan`. */
  datatype Frame = Inactive | Active(span: SpanId, prior: Option<SpanId>, scope: Scope)

  /** The tracer is well formed and the slot, when set, names a started span. */
  ghost predicate WfState(st: State) {
    && Tracing.Wf(st.tracer)
    && (st.slot.Some? ==> st.slot.value in st.tracer.spans)
  }

  /** The record of a span created by `Enter` once `Exit` has finished it. */
  function FinishedSpan(m: DispatchMethod, target: Option<string>, thrown: Option<ErrorId>): SpanRecord {
    SpanRecord(SpanName(m), target, true, thrown, 1)
  }

  /** The enter hook `start`. */
  function Enter(st: State, m: DispatchMethod, d: DispatcherId, store: TargetStore): (r: (State, Frame))
    // no valid ambient span: no span, no change
    ensures r.1.Inactive? <==> !CurrentSpanIsValid(st.tracer)
    ensures r.1.Inactive? ==> r.0 == st
    // a valid ambient span: a new child span owns the slot and the ambient context
    ensures r.1.Active? ==>
      && r.1.prior == st.slot
      && r.0.slot == Some(r.1.span)
      && CurrentSpan(r.0.tracer) == Some(r.1.span)
      && r.0.tracer.context == st.tracer.context + [r.1.span]
      && r.1.scope.previous == st.tracer.context
      && r.0.tracer.spans == st.tracer.spans[r.1.span := SpanRecord(SpanName(m), LookupTarget(store, d), true, None, 0)]
      && r.0.tracer.nextId == st.tracer.nextId + 1
      && r.0.tracer.nextId > r.1.span
    ensures r.1.Active? && Tracing.Wf(st.tracer) ==> r.1.span !in st.tracer.spans
    ensures WfState(st) ==> WfState(r.0)
  {
    if !CurrentSpanIsValid(st.tracer) then
      (st, Inactive)
    else
      var (t1, span) := StartSpan(st.tracer, SpanName(m));
      var target := LookupTarget(store, d);
      var t2 := SetResource(t1, span, target);
      var original := st.slot;
      var (t3, scope) := WithSpan(t2, span);
      (State(Some(span), t3), Active(span, original, scope))
  }

  /** The exit hook `stop`; `thrown` is the `Throwable` the dispatch raised, if any. */
  function Exit(st: State, f: Frame, thrown: Option<ErrorId>): (r: State)
    ensures f.Inactive? ==> r == st
    ensures f.Active? ==>
      && r.slot == f.prior
      && r.tracer.context == f.scope.previous
      && r.tracer.nextId == st.tracer.nextId
      && r.tracer.spans.Keys == st.tracer.spans.Keys
      && (forall id | id in st.tracer.spans && id != f.span :: r.tracer.spans[id] == st.tracer.spans[id])
    ensures f.Active? && f.span in st.tracer.spans ==>
      var before := st.tracer.spans[f.span];
      var after := r.tracer.spans[f.span];
      && after.ends == before.ends + 1
      && after.error == (if thrown.Some? then thrown else before.error)
      && after == before.(ends := after.ends, error := after.error)
  {
    match f
    case Inactive => st
    case Active(span, original, scope) =>
      var restored := st.(slot := original);
      var t1 := RecordError(restored.tracer, span, thrown);
      var t2 := EndSpan(t1, span);
      restored.(tracer := CloseScope(t2, scope))
  }

  /** Enter followed directly by Exit puts the slot and the ambient context back exactly, with
      or without a thrown error, and leaves behind one finished span carrying that error. */
  lemma EnterExitRoundTrip(st: State, m: DispatchMethod, d: DispatcherId, store: TargetStore, thrown: Option<ErrorId>)
    ensures
      var (s1, f) := Enter(st, m, d, store);
      var s2 := Exit(s1, f, thrown);
      && s2.slot == st.slot
      && s2.tracer.context == st.tracer.context
      && (f.Inactive? ==> s2 == st)
      && (f.Active? ==> s2.tracer.spans == st.tracer.spans[f.span := FinishedSpan(m, LookupTarget(store, d), thrown)])
  {
  }
}

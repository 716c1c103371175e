/**
 Both hooks are declared with `suppress = Throwable.class`: if a statement inside a hook throws,
 the rest of that hook is skipped, the throwable is dropped and the dispatch goes ahead; a
 suppressed enter hook hands `null` to the exit hook. This module models a hook that is cut
 short at a given statement, and shows which guarantees of the complete hooks survive.
 */
module FailOpen {
  import opened Wrappers
  import opened Tracing
  import opened Dispatcher

  /** The statements of the enter hook, in order; the one named is the one that throws. */
  datatype EnterStep =
    | ReadCurrentSpan   // the validity check
    | AtStartSpan       // spanBuilder(..).startSpan()
    | AfterStart        // decorator's afterStart
    | ReadTarget        // the context store lookup
    | AtSetResource     // span.setAttribute(RESOURCE_NAME, target)
    | ReadSlot          // request.getAttribute(SPAN_ATTRIBUTE)
    | WriteSlot         // request.setAttribute(SPAN_ATTRIBUTE, span)
    | Activate          // withSpan(span) and the SpanWithScope

  /** The statements of the exit hook after the `null` check, in order. */
  datatype ExitStep =
    | RestoreSlot       // request.setAttribute(SPAN_ATTRIBUTE, original)
    | OnError           // decorator's onError
    | BeforeFinish      // decorator's beforeFinish
    | End               // span.end()
    | Close             // spanWithScope.closeScope()

  function EnterOrdinal(s: EnterStep): nat {
    match s
    case ReadCurrentSpan => 0
    case AtStartSpan => 1
    case AfterStart => 2
    case ReadTarget => 3
    case AtSetResource => 4
    case ReadSlot => 5
    case WriteSlot => 6
    case Activate => 7
  }

  function ExitOrdinal(s: ExitStep): nat {
    match s
    case RestoreSlot => 0
    case OnError => 1
    case BeforeFinish => 2
    case End => 3
    case Close => 4
  }

  /** Whether `step` completed before the statement `failsAt` threw. */
  predicate EnterDone(step: EnterStep, failsAt: EnterStep) {
    EnterOrdinal(step) < EnterOrdinal(failsAt)
  }

  predicate ExitDone(step: ExitStep, failsAt: ExitStep) {
    ExitOrdinal(step) < ExitOrdinal(failsAt)
  }

  /** The enter hook when the statement `failsAt` throws: the effects of the statements before
      it stay, and the hook returns `null`. */
  function EnterAborted(st: State, m: DispatchMethod, d: DispatcherId, store: TargetStore, failsAt: EnterStep): (r: (State, Frame))
    ensures r.1 == Inactive
    ensures r.0.tracer.context == st.tracer.context
    ensures failsAt != Activate ==> r.0.slot == st.slot
    ensures !EnterDone(AtStartSpan, failsAt) || !CurrentSpanIsValid(st.tracer) ==> r.0 == st
  {
    if failsAt == ReadCurrentSpan || !CurrentSpanIsValid(st.tracer) then
      (st, Inactive)
    else
      var (t1, span) := StartSpan(st.tracer, SpanName(m));
      var t2 := if EnterDone(AtSetResource, failsAt) then SetResource(t1, span, LookupTarget(store, d)) else t1;
      var slot := if EnterDone(WriteSlot, failsAt) then Some(span) else st.slot;
      if EnterDone(AtStartSpan, failsAt) then (State(slot, t2), Inactive) else (st, Inactive)
  }

  /** The exit hook when the statement `failsAt` throws. */
  function ExitAborted(st: State, f: Frame, thrown: Option<ErrorId>, failsAt: ExitStep): (r: State)
    ensures f.Inactive? ==> r == st
    ensures f.Active? && failsAt != RestoreSlot ==> r.slot == f.prior
    ensures r.tracer.context == st.tracer.context
    ensures r.tracer.spans.Keys == st.tracer.spans.Keys
    ensures failsAt != Close && f.Active? && f.span in st.tracer.spans ==>
      r.tracer.spans[f.span].ends == st.tracer.spans[f.span].ends
  {
    match f
    case Inactive => st
    case Active(span, original, scope) =>
      var slot := if ExitDone(RestoreSlot, failsAt) then original else st.slot;
      var t1 := if ExitDone(OnError, failsAt) then RecordError(st.tracer, span, thrown) else st.tracer;
      var t2 := if ExitDone(End, failsAt) then EndSpan(t1, span) else t1;
      State(slot, t2)
  }

  /** Up to the last statement the aborted enter hook did what the complete one does: it
      differs only in the ambient context it failed to switch and the frame it failed to return. */
  lemma AbortedActivationIsEnterWithoutScope(st: State, m: DispatchMethod, d: DispatcherId, store: TargetStore)
    requires CurrentSpanIsValid(st.tracer)
    ensures
      var (s, _) := Enter(st, m, d, store);
      EnterAborted(st, m, d, store, Activate).0 == s.(tracer := s.tracer.(context := st.tracer.context))
  {
  }

  /** The exit hook cut short at closing the scope did all of the complete hook's work except
      reinstating the ambient context. */
  lemma AbortedCloseIsExitWithoutClose(st: State, f: Frame, thrown: Option<ErrorId>)
    requires f.Active?
    ensures
      var s := Exit(st, f, thrown);
      ExitAborted(st, f, thrown, Close) == s.(tracer := s.tracer.(context := st.tracer.context))
  {
  }

  /** The exception to the round trip: if `withSpan` throws after the slot was overwritten, the
      exit hook receives `null`, skips the restoration, and the request keeps pointing at a span
      that is never ended. */
  lemma AbortedActivationLeavesSlotOverwritten(st: State, m: DispatchMethod, d: DispatcherId, store: TargetStore, thrown: Option<ErrorId>)
    requires WfState(st) && CurrentSpanIsValid(st.tracer)
    ensures
      var (s1, f) := EnterAborted(st, m, d, store, Activate);
      var s2 := Exit(s1, f, thrown);
      && s2.slot != st.slot
      && s2.slot == Some(st.tracer.nextId)
      && st.tracer.nextId in s2.tracer.spans
      && s2.tracer.spans[st.tracer.nextId].ends == 0
  {
    var (s1, f) := EnterAborted(st, m, d, store, Activate);
    if st.slot.Some? {
      assert st.slot.value in st.tracer.spans;
    }
  }

  /** Any enter hook aborted after the span was started leaves that span un-ended, while the
      slot is restored (that is, never touched) unless the abort came after the slot write. */
  lemma AbortedEnterLeaksSpan(st: State, m: DispatchMethod, d: DispatcherId, store: TargetStore, thrown: Option<ErrorId>, failsAt: EnterStep)
    requires Tracing.Wf(st.tracer) && CurrentSpanIsValid(st.tracer)
    requires failsAt !in {ReadCurrentSpan, AtStartSpan}
    ensures
      var (s1, f) := EnterAborted(st, m, d, store, failsAt);
      var s2 := Exit(s1, f, thrown);
      && st.tracer.nextId !in st.tracer.spans
      && st.tracer.nextId in s2.tracer.spans
      && s2.tracer.spans[st.tracer.nextId].ends == 0
      && (failsAt != Activate ==> s2.slot == st.slot)
  {
  }

  /** A failure anywhere in the exit hook after the restoration still leaves the slot as it
      was before the dispatch, but leaves the dispatch's span as the current span. */
  lemma AbortedExitStillRestoresSlot(st: State, m: DispatchMethod, d: DispatcherId, store: TargetStore, thrown: Option<ErrorId>, failsAt: ExitStep)
    requires Tracing.Wf(st.tracer) && CurrentSpanIsValid(st.tracer)
    requires failsAt != RestoreSlot
    ensures
      var (s1, f) := Enter(st, m, d, store);
      var s2 := ExitAborted(s1, f, thrown, failsAt);
      && s2.slot == st.slot
      && CurrentSpan(s2.tracer) == Some(f.span)
      && CurrentSpan(s2.tracer) != CurrentSpan(st.tracer)
  {
  }
}

/**
 Nested dispatches on one request: a servlet that is itself the target of a forward or include
 may dispatch again, so the hooks run as a call/return trace. `Run` replays such a trace,
 keeping the frames of the dispatches still in progress as a stack (innermost last), and the
 lemmas show that the save/restore discipline of the hooks holds at every depth.
 */
module Nesting {
  import opened Wrappers
  import opened Tracing
  import opened Dispatcher

  /** Entry into a dispatch (`forward`/`include` called) or its return (normally or by a throw). */
  datatype Event = Call(kind: DispatchMethod, dispatcher: DispatcherId) | Return(thrown: Option<ErrorId>)

  /** The hooks' state and the frames of the dispatches entered but not yet returned. */
  datatype Machine = Machine(st: State, frames: seq<Frame>)

  /** One hook invocation. A return without a pending call has no hook to pair with. */
  function Step(mc: Machine, e: Event, store: TargetStore): Option<Machine> {
    match e
    case Call(m, d) =>
      var (s, f) := Enter(mc.st, m, d, store);
      Some(Machine(s, mc.frames + [f]))
    case Return(thrown) =>
      if |mc.frames| == 0 then None
      else Some(Machine(Exit(mc.st, mc.frames[|mc.frames| - 1], thrown), mc.frames[..|mc.frames| - 1]))
  }

  function Run(mc: Machine, evs: seq<Event>, store: TargetStore): Option<Machine>
    decreases |evs|
  {
    if |evs| == 0 then Some(mc)
    else
      match Step(mc, evs[0], store)
      case None => None
      case Some(next) => Run(next, evs[1..], store)
  }

  function Calls(evs: seq<Event>): nat {
    if |evs| == 0 then 0 else (if evs[0].Call? then 1 else 0) + Calls(evs[1..])
  }

  function Returns(evs: seq<Event>): nat {
    if |evs| == 0 then 0 else (if evs[0].Return? then 1 else 0) + Returns(evs[1..])
  }

  /** Starting with `depth` dispatches in progress, no return comes without a pending call. */
  predicate NoUnderflow(evs: seq<Event>, depth: nat) {
    if |evs| == 0 then true
    else if evs[0].Call? then NoUnderflow(evs[1..], depth + 1)
    else depth > 0 && NoUnderflow(evs[1..], depth - 1)
  }

  /** Every call returns, in reverse order of the calls. */
  predicate WellBracketed(evs: seq<Event>) {
    NoUnderflow(evs, 0) && Calls(evs) == Returns(evs)
  }

  /** The frames in progress form a chain back to the state `st0` before the outermost dispatch:
      the innermost frame owns `slot` and the top of `context`, and its saved values are what
      the enclosing frames (or `st0`) show. */
  ghost predicate Chain(st0: State, frames: seq<Frame>, slot: Option<SpanId>, context: seq<SpanId>)
    decreases |frames|
  {
    if |frames| == 0 then
      slot == st0.slot && context == st0.tracer.context
    else
      var f := frames[|frames| - 1];
      && f.Active?
      && slot == Some(f.span)
      && context == f.scope.previous + [f.span]
      && f.span >= st0.tracer.nextId
      && (forall i | 0 <= i < |f.scope.previous| :: f.scope.previous[i] < f.span)
      && Chain(st0, frames[..|frames| - 1], f.prior, f.scope.previous)
  }

  /** A span created by a dispatch: valid, named after the method, ended once if and only if
      its dispatch has returned. */
  ghost predicate CreatedSpan(rec: SpanRecord, open: bool) {
    && rec.valid
    && (rec.name == SpanName(Forward) || rec.name == SpanName(Include))
    && rec.ends == (if open then 0 else 1)
    && (open ==> rec.error.None?)
  }

  /** What holds after any prefix of a trace started from `st0`. */
  ghost predicate Inv(st0: State, mc: Machine) {
    if CurrentSpanIsValid(st0.tracer) then
      && Tracing.Wf(mc.st.tracer)
      && Chain(st0, mc.frames, mc.st.slot, mc.st.tracer.context)
      && st0.tracer.nextId <= mc.st.tracer.nextId
      && (forall id | id in st0.tracer.spans ::
            id in mc.st.tracer.spans && mc.st.tracer.spans[id] == st0.tracer.spans[id])
      && (forall id | st0.tracer.nextId <= id < mc.st.tracer.nextId ::
            id in mc.st.tracer.spans && CreatedSpan(mc.st.tracer.spans[id], id in mc.st.tracer.context))
    else
      && mc.st == st0
      && (forall i | 0 <= i < |mc.frames| :: mc.frames[i] == Inactive)
  }

  /** The innermost frame in progress owns the slot and is the current span. */
  lemma {:induction false} ChainTop(st0: State, frames: seq<Frame>, slot: Option<SpanId>, context: seq<SpanId>)
    requires Chain(st0, frames, slot, context)
    ensures |frames| == 0 ==> slot == st0.slot && context == st0.tracer.context
    ensures |frames| > 0 ==>
      && frames[|frames| - 1].Active?
      && |context| > 0
      && slot == Some(frames[|frames| - 1].span)
      && context[|context| - 1] == frames[|frames| - 1].span
  {
  }

  /** Inside a traced request the current span stays valid: it is the span that was current
      before the outermost dispatch, or the innermost dispatch's own span. */
  lemma AmbientStaysValid(st0: State, mc: Machine)
    requires Tracing.Wf(st0.tracer) && CurrentSpanIsValid(st0.tracer) && Inv(st0, mc)
    ensures CurrentSpanIsValid(mc.st.tracer)
  {
    var t := mc.st.tracer;
    ChainTop(st0, mc.frames, mc.st.slot, t.context);
    if |mc.frames| > 0 {
      var top := t.context[|t.context| - 1];
      assert top in t.spans;
      assert CreatedSpan(t.spans[top], top in t.context);
    }
  }

  /** Entering a dispatch keeps the invariant when an ambient span was valid at the start. */
  lemma CallKeepsInv(st0: State, mc: Machine, m: DispatchMethod, d: DispatcherId, store: TargetStore)
    requires Tracing.Wf(st0.tracer) && CurrentSpanIsValid(st0.tracer) && Inv(st0, mc)
    ensures Step(mc, Call(m, d), store).Some?
    ensures Inv(st0, Step(mc, Call(m, d), store).value)
    ensures Step(mc, Call(m, d), store).value.st.tracer.nextId == mc.st.tracer.nextId + 1
  {
    var t := mc.st.tracer;
    AmbientStaysValid(st0, mc);
    var (s, f) := Enter(mc.st, m, d, store);
    assert Step(mc, Call(m, d), store) == Some(Machine(s, mc.frames + [f]));
    assert (mc.frames + [f])[..|mc.frames|] == mc.frames;
    // the new span is younger than every span already in the ambient context
    forall i | 0 <= i < |t.context|
      ensures t.context[i] < f.span
    {
      assert t.context[i] in t.spans;
    }
    assert Chain(st0, mc.frames + [f], s.slot, s.tracer.context);
    assert f.span !in st0.tracer.spans;
    forall id | st0.tracer.nextId <= id < s.tracer.nextId
      ensures id in s.tracer.spans && CreatedSpan(s.tracer.spans[id], id in s.tracer.context)
    {
      if id != f.span {
        assert id in s.tracer.context <==> id in t.context;
      }
    }
  }

  /** Returning from the innermost dispatch keeps the invariant when an ambient span was valid
      at the start. */
  lemma ReturnKeepsInv(st0: State, mc: Machine, thrown: Option<ErrorId>, store: TargetStore)
    requires Tracing.Wf(st0.tracer) && CurrentSpanIsValid(st0.tracer) && Inv(st0, mc)
    requires |mc.frames| > 0
    ensures Step(mc, Return(thrown), store).Some?
    ensures Inv(st0, Step(mc, Return(thrown), store).value)
    ensures Step(mc, Return(thrown), store).value.st.tracer.nextId == mc.st.tracer.nextId
  {
    var t := mc.st.tracer;
    ChainTop(st0, mc.frames, mc.st.slot, t.context);
    var f := mc.frames[|mc.frames| - 1];
    var rest := mc.frames[..|mc.frames| - 1];
    var out := Machine(Exit(mc.st, f, thrown), rest);
    assert Step(mc, Return(thrown), store) == Some(out);
    var t' := out.st.tracer;
    assert Chain(st0, rest, f.prior, f.scope.previous);
    ChainTop(st0, rest, f.prior, f.scope.previous);
    assert f.span !in f.scope.previous;
    assert f.span !in st0.tracer.spans;
    forall id | st0.tracer.nextId <= id < t'.nextId
      ensures id in t'.spans && CreatedSpan(t'.spans[id], id in t'.context)
    {
      if id != f.span {
        assert id in t'.context <==> id in t.context;
      }
    }
    forall i | 0 <= i < |t'.context|
      ensures t'.context[i] in t'.spans
    {
      assert t'.context[i] == t.context[i];
    }
    if |rest| > 0 {
      assert f.scope.previous[|f.scope.previous| - 1] == t.context[|f.scope.previous| - 1];
    }
  }

  lemma StepKeepsInv(st0: State, mc: Machine, e: Event, store: TargetStore)
    requires Tracing.Wf(st0.tracer) && Inv(st0, mc)
    requires e.Return? ==> |mc.frames| > 0
    ensures Step(mc, e, store).Some?
    ensures Inv(st0, Step(mc, e, store).value)
    ensures |Step(mc, e, store).value.frames| == |mc.frames| + (if e.Call? then 1 else -1)
    ensures Step(mc, e, store).value.st.tracer.nextId
      == mc.st.tracer.nextId + (if e.Call? && CurrentSpanIsValid(st0.tracer) then 1 else 0)
  {
    if !CurrentSpanIsValid(st0.tracer) {
      if e.Return? {
        assert mc.frames[|mc.frames| - 1] == Inactive;
      }
    } else {
      match e
      case Call(m, d) => CallKeepsInv(st0, mc, m, d, store);
      case Return(thrown) => ReturnKeepsInv(st0, mc, thrown, store);
    }
  }

  lemma {:induction false} RunKeepsInv(st0: State, mc: Machine, evs: seq<Event>, store: TargetStore)
    requires Tracing.Wf(st0.tracer) && Inv(st0, mc)
    requires NoUnderflow(evs, |mc.frames|)
    ensures Run(mc, evs, store).Some?
    ensures Inv(st0, Run(mc, evs, store).value)
    ensures |Run(mc, evs, store).value.frames| + Returns(evs) == |mc.frames| + Calls(evs)
    ensures Run(mc, evs, store).value.st.tracer.nextId
      == mc.st.tracer.nextId + (if CurrentSpanIsValid(st0.tracer) then Calls(evs) else 0)
    decreases |evs|
  {
    if |evs| > 0 {
      StepKeepsInv(st0, mc, evs[0], store);
      var next := Step(mc, evs[0], store).value;
      RunKeepsInv(st0, next, evs[1..], store);
    }
  }

  /** Before any dispatch the invariant holds trivially. */
  lemma InitialInv(st0: State)
    requires Tracing.Wf(st0.tracer)
    ensures Inv(st0, Machine(st0, []))
  {
  }

  /** A complete trace of nested and sibling dispatches leaves the slot and the ambient context
      exactly as they were, leaves every pre-existing span untouched, creates one span per
      dispatch when (and only when) an ambient span was valid, and ends each of them exactly once.
      With no valid ambient span nothing changes at all. */
  lemma NestedDispatchesRestore(st0: State, evs: seq<Event>, store: TargetStore)
    requires Tracing.Wf(st0.tracer)
    requires WellBracketed(evs)
    ensures Run(Machine(st0, []), evs, store).Some?
    ensures
      var out := Run(Machine(st0, []), evs, store).value;
      var t0 := st0.tracer;
      var t := out.st.tracer;
      && out.frames == []
      && out.st.slot == st0.slot
      && t.context == t0.context
      && (forall id | id in t0.spans :: id in t.spans && t.spans[id] == t0.spans[id])
      && t.nextId == t0.nextId + (if CurrentSpanIsValid(t0) then Calls(evs) else 0)
      && (forall id | t0.nextId <= id < t.nextId :: id in t.spans && t.spans[id].ends == 1)
      && (!CurrentSpanIsValid(t0) ==> out.st == st0)
  {
    InitialInv(st0);
    RunKeepsInv(st0, Machine(st0, []), evs, store);
    var out := Run(Machine(st0, []), evs, store).value;
    if CurrentSpanIsValid(st0.tracer) {
      ChainTop(st0, out.frames, out.st.slot, out.st.tracer.context);
      forall id | st0.tracer.nextId <= id < out.st.tracer.nextId
        ensures id in out.st.tracer.spans && out.st.tracer.spans[id].ends == 1
      {
        assert CreatedSpan(out.st.tracer.spans[id], id in out.st.tracer.context);
      }
    }
  }

  /** At every point of a trace, while some dispatch is in progress, the innermost one's span is
      both the slot value and the current span, and it has not been ended yet; when none is in
      progress the slot and ambient context are those before the first dispatch. */
  lemma InnermostDispatchOwnsSlot(st0: State, evs: seq<Event>, store: TargetStore)
    requires Tracing.Wf(st0.tracer) && CurrentSpanIsValid(st0.tracer)
    requires NoUnderflow(evs, 0)
    ensures Run(Machine(st0, []), evs, store).Some?
    ensures
      var out := Run(Machine(st0, []), evs, store).value;
      && (|out.frames| == 0 ==> out.st.slot == st0.slot && out.st.tracer.context == st0.tracer.context)
      && (|out.frames| > 0 ==>
            var f := out.frames[|out.frames| - 1];
            && f.Active?
            && out.st.slot == Some(f.span)
            && CurrentSpan(out.st.tracer) == Some(f.span)
            && f.span in out.st.tracer.spans
            && out.st.tracer.spans[f.span].ends == 0)
  {
    InitialInv(st0);
    RunKeepsInv(st0, Machine(st0, []), evs, store);
    var out := Run(Machine(st0, []), evs, store).value;
    ChainTop(st0, out.frames, out.st.slot, out.st.tracer.context);
    if |out.frames| > 0 {
      var f := out.frames[|out.frames| - 1];
      var c := out.st.tracer.context;
      assert c[|c| - 1] in out.st.tracer.spans;
      assert CreatedSpan(out.st.tracer.spans[f.span], f.span in c);
    }
  }

  /** When the innermost dispatch returns, the slot and the current span go back to the
      enclosing dispatch's span (or to the values before the outermost one), and the returning
      dispatch's span is ended, carrying the thrown error, or no error after a normal return. */
  lemma ReturnRestoresEnclosing(st0: State, mc: Machine, thrown: Option<ErrorId>, store: TargetStore)
    requires Tracing.Wf(st0.tracer) && CurrentSpanIsValid(st0.tracer) && Inv(st0, mc)
    requires |mc.frames| > 0
    ensures Step(mc, Return(thrown), store).Some?
    ensures
      var out := Step(mc, Return(thrown), store).value;
      var n := |mc.frames|;
      var f := mc.frames[n - 1];
      && f.Active?
      && (n == 1 ==> out.st.slot == st0.slot && CurrentSpan(out.st.tracer) == CurrentSpan(st0.tracer))
      && (n > 1 ==>
            && mc.frames[n - 2].Active?
            && out.st.slot == Some(mc.frames[n - 2].span)
            && CurrentSpan(out.st.tracer) == Some(mc.frames[n - 2].span))
      && f.span in out.st.tracer.spans
      && out.st.tracer.spans[f.span].ends == 1
      && out.st.tracer.spans[f.span].error == thrown
  {
    StepKeepsInv(st0, mc, Return(thrown), store);
    var out := Step(mc, Return(thrown), store).value;
    var n := |mc.frames|;
    var f := mc.frames[n - 1];
    ChainTop(st0, mc.frames, mc.st.slot, mc.st.tracer.context);
    assert mc.frames[..n - 1] == out.frames;
    ChainTop(st0, out.frames, out.st.slot, out.st.tracer.context);
    if n > 1 {
      assert out.frames[n - 2] == mc.frames[n - 2];
    }
    assert f.span in mc.st.tracer.spans;
    assert CreatedSpan(mc.st.tracer.spans[f.span], f.span in mc.st.tracer.context);
  }
}

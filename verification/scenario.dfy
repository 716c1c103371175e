/**
 A worked trace: span 0 is the server span, already current and in the request slot. The
 servlet forwards to "/a" (dispatcher 1), whose target includes "/b" (dispatcher 2); the
 included servlet throws error 7, which propagates out of both dispatches. Each hook step is
 stated as the exact machine it produces.
 */
module Scenario {
  import opened Wrappers
  import opened Tracing
  import opened Dispatcher
  import opened Nesting

  const Server := SpanRecord("servlet.request", None, true, None, 0)
  const Store: TargetStore := map[1 := "/a", 2 := "/b"]
  const Trace := [Call(Forward, 1), Call(Include, 2), Return(Some(7)), Return(Some(7))]

  const ForwardFrame := Active(1, Some(0), Scope([0]))
  const IncludeFrame := Active(2, Some(1), Scope([0, 1]))
  const ForwardOpen := SpanRecord("servlet.forward", Some("/a"), true, None, 0)
  const IncludeOpen := SpanRecord("servlet.include", Some("/b"), true, None, 0)

  const Start := Machine(State(Some(0), Tracer([0], map[0 := Server], 1)), [])
  const InForward := Machine(State(Some(1), Tracer([0, 1], map[0 := Server, 1 := ForwardOpen], 2)), [ForwardFrame])
  const InInclude := Machine(
    State(Some(2), Tracer([0, 1, 2], map[0 := Server, 1 := ForwardOpen, 2 := IncludeOpen], 3)),
    [ForwardFrame, IncludeFrame])
  const AfterInclude := Machine(
    State(Some(1), Tracer([0, 1], map[0 := Server, 1 := ForwardOpen, 2 := FinishedSpan(Include, Some("/b"), Some(7))], 3)),
    [ForwardFrame])
  const AfterForward := Machine(
    State(Some(0), Tracer([0], map[
      0 := Server,
      1 := FinishedSpan(Forward, Some("/a"), Some(7)),
      2 := FinishedSpan(Include, Some("/b"), Some(7))], 3)),
    [])

  lemma EnterForward()
    ensures Step(Start, Trace[0], Store) == Some(InForward)
  {
    assert CurrentSpanIsValid(Start.st.tracer);
    assert SpanName(Forward) == "servlet.forward";
    var (s, f) := Enter(Start.st, Forward, 1, Store);
    assert f == ForwardFrame;
    assert s.tracer.context == [0] + [1] == [0, 1];
    assert s == InForward.st;
    assert Start.frames + [f] == [ForwardFrame];
  }

  lemma EnterInclude()
    ensures Step(InForward, Trace[1], Store) == Some(InInclude)
  {
    assert CurrentSpanIsValid(InForward.st.tracer);
    assert SpanName(Include) == "servlet.include";
    var (s, f) := Enter(InForward.st, Include, 2, Store);
    assert f == IncludeFrame;
    assert s.tracer.context == [0, 1] + [2] == [0, 1, 2];
    assert s == InInclude.st;
    assert InForward.frames + [f] == [ForwardFrame, IncludeFrame];
  }

  lemma IncludeThrows()
    ensures Step(InInclude, Trace[2], Store) == Some(AfterInclude)
  {
    assert SpanName(Include) == "servlet.include";
    assert Exit(InInclude.st, IncludeFrame, Some(7)) == AfterInclude.st;
    assert InInclude.frames[..1] == [ForwardFrame];
  }

  lemma ForwardThrows()
    ensures Step(AfterInclude, Trace[3], Store) == Some(AfterForward)
  {
    assert SpanName(Forward) == "servlet.forward";
    assert Exit(AfterInclude.st, ForwardFrame, Some(7)) == AfterForward.st;
    assert AfterInclude.frames[..0] == [];
  }

  /** After the include returns, the forward's span is again the slot value and the current
      span; after the forward returns, the server span is, and both created spans are ended
      once with the error and their targets. */
  lemma ForwardThenFailingInclude()
    ensures Run(Start, Trace[..3], Store) == Some(AfterInclude)
    ensures AfterInclude.st.slot == Some(1) && CurrentSpan(AfterInclude.st.tracer) == Some(1)
    ensures Run(Start, Trace, Store) == Some(AfterForward)
    ensures AfterForward.st.slot == Some(0) && CurrentSpan(AfterForward.st.tracer) == Some(0)
    ensures AfterForward.st.tracer.spans[1] == FinishedSpan(Forward, Some("/a"), Some(7))
    ensures AfterForward.st.tracer.spans[2] == FinishedSpan(Include, Some("/b"), Some(7))
  {
    EnterForward();
    EnterInclude();
    IncludeThrows();
    ForwardThrows();
    // replay the trace from its end
    assert Trace[3..][1..] == [];
    assert Run(AfterInclude, Trace[3..], Store) == Some(AfterForward);
    assert Trace[2..][1..] == Trace[3..];
    assert Run(InInclude, Trace[2..], Store) == Some(AfterForward);
    assert Trace[1..][1..] == Trace[2..];
    assert Run(InForward, Trace[1..], Store) == Some(AfterForward);
    // and its first three events
    var pre := Trace[..3];
    assert pre[2..][1..] == [] && pre[2..][0] == Trace[2];
    assert Run(InInclude, pre[2..], Store) == Some(AfterInclude);
    assert pre[1..][1..] == pre[2..] && pre[1..][0] == Trace[1];
    assert Run(InForward, pre[1..], Store) == Some(AfterInclude);
    assert pre[0] == Trace[0];
  }
}

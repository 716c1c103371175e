# Servlet dispatcher span save/restore, in Dafny

This project models the span bookkeeping that the OpenTelemetry servlet instrumentation wraps
around `RequestDispatcher.forward` and `RequestDispatcher.include`. The code lives in
`RequestDispatcherInstrumentation.RequestDispatcherAdvice`. It has an enter hook, `start`, and
an exit hook, `stop`.

The hooks act on three pieces of state:

- **The request slot.** This is the request attribute `SPAN_ATTRIBUTE`. It tells the dispatched
  servlet which span to use as its parent.
- **The ambient context of the tracer.** The current span is the innermost one made current by
  `withSpan`. A scope remembers the context that was current when it opened, and closing the
  scope reinstates that context.
- **The span table.** For every started span it records the name, the resource name, whether
  the span context is valid, the recorded error, and how many times `end()` was called.

The modules are:

- `Wrappers`: `Option`, which stands in for Java's `null`.
- `Tracing`: the tracer effects the hooks use. These are starting a span, setting its resource
  name, recording an error, ending it, `withSpan`, and closing a scope.
- `Dispatcher`: the hooks as the pure functions `Enter` and `Exit`. The hand-off between them
  (the returned `SpanWithScope` plus the local `_originalServletSpan`) is the `Frame` datatype.
  The module also has the forward/include method matcher.
- `Nesting`: call/return traces of nested and sibling dispatches on one request, replayed by
  `Run` with a stack of frames. An invariant (`Chain`, `Inv`) ties every frame still in progress
  back to the state before the outermost dispatch.
- `Scenario`: a worked trace. A forward contains an include that throws, and every hook step is
  stated as the exact state it produces.
- `FailOpen`: the `suppress = Throwable.class` policy. Either hook can be cut short at any of its
  statements. The lemmas show which guarantees survive and which do not.

The save/restore discipline is meant to restore the slot on every exit path. In the code the
hooks suppress their own exceptions, and restoration then fails in exactly two cases:

- `withSpan` throws after the slot was overwritten (line 108, then line 110). The enter hook's
  failure is suppressed, the exit hook gets `null`, and it skips the restoration
  (`FailOpen.AbortedActivationLeavesSlotOverwritten`).
- The restoring write at line 126 itself throws (`FailOpen.ExitAborted` failing at `RestoreSlot`).

An enter hook that throws before line 108 never touches the slot, so the slot stays correct
(`FailOpen.AbortedEnterLeaksSpan`). An exit hook that throws after line 126 has already restored
it (`FailOpen.AbortedExitStillRestoresSlot`). The model follows the code.

## Model

| member | source | states |
|---|---|---|
| Dispatcher.MatchMethod | instrumentation/servlet/src/main/java/io/opentelemetry/auto/instrumentation/servlet/dispatcher/RequestDispatcherInstrumentation.java:75-76 | A method name is matched if and only if it is "forward" or "include". The matched method's name is the input. |
| Dispatcher.MatchMethodName | instrumentation/servlet/src/main/java/io/opentelemetry/auto/instrumentation/servlet/dispatcher/RequestDispatcherInstrumentation.java:75-76 | The matcher accepts both instrumented methods and maps each back to itself. |
| Tracing.StartSpan | instrumentation/servlet/src/main/java/io/opentelemetry/auto/instrumentation/servlet/dispatcher/RequestDispatcherInstrumentation.java:96 | Starting a span gives a span id that was not in use, with the requested name, valid and not ended. Every earlier span and the ambient context are untouched. |
| Dispatcher.Enter | instrumentation/servlet/src/main/java/io/opentelemetry/auto/instrumentation/servlet/dispatcher/RequestDispatcherInstrumentation.java:86-111 | If and only if the current span is not valid, it returns the inactive (`null`) frame and changes nothing. Otherwise it saves the pre-entry slot value in the frame and adds one fresh span named "servlet." + method, carrying the looked-up target (possibly absent). That span becomes the slot value and is pushed on the ambient context as the current span. Exactly one span id is used. The frame's scope holds the pre-entry context, and no other span changes. |
| Dispatcher.Exit | instrumentation/servlet/src/main/java/io/opentelemetry/auto/instrumentation/servlet/dispatcher/RequestDispatcherInstrumentation.java:113-134 | On a `null` frame it changes nothing. Otherwise the slot becomes the saved value, whatever it was, and the ambient context reverts to the one the scope saved. The frame's span is ended once more and takes the thrown error when there is one. No other span changes. |
| Dispatcher.EnterExitRoundTrip | instrumentation/servlet/src/main/java/io/opentelemetry/auto/instrumentation/servlet/dispatcher/RequestDispatcherInstrumentation.java:103-133 | Enter then Exit restores the slot exactly, including an absent value, and restores the ambient context, with or without a thrown error. The only trace left is one new span, ended once, carrying the target and the thrown error. With no valid current span the state is unchanged. |
| Nesting.CallKeepsInv | instrumentation/servlet/src/main/java/io/opentelemetry/auto/instrumentation/servlet/dispatcher/RequestDispatcherInstrumentation.java:96-110 | When a dispatch is entered inside a traced request, the new frame extends the chain of frames in progress. Exactly one span is created. |
| Nesting.ReturnKeepsInv | instrumentation/servlet/src/main/java/io/opentelemetry/auto/instrumentation/servlet/dispatcher/RequestDispatcherInstrumentation.java:123-133 | When the innermost dispatch returns, the chain shrinks by that frame. Its span goes from open (never ended) to ended exactly once. |
| Nesting.StepKeepsInv | instrumentation/servlet/src/main/java/io/opentelemetry/auto/instrumentation/servlet/dispatcher/RequestDispatcherInstrumentation.java:91-133 | Every hook invocation keeps the nesting invariant. Without a valid ambient span at the start, every frame is `null` and the state never changes. |
| Nesting.RunKeepsInv | instrumentation/servlet/src/main/java/io/opentelemetry/auto/instrumentation/servlet/dispatcher/RequestDispatcherInstrumentation.java:91-133 | Any trace in which no return lacks a pending call keeps the invariant. The trace creates one span per call when the ambient span was valid, and none otherwise. |
| Nesting.NestedDispatchesRestore | instrumentation/servlet/src/main/java/io/opentelemetry/auto/instrumentation/servlet/dispatcher/RequestDispatcherInstrumentation.java:103-133 | After any well-bracketed trace of nested and sibling dispatches, the slot and the ambient context equal their values before the first dispatch. Every pre-existing span is unchanged, and every created span is ended exactly once. Without a valid ambient span nothing changes at all. |
| Nesting.InnermostDispatchOwnsSlot | instrumentation/servlet/src/main/java/io/opentelemetry/auto/instrumentation/servlet/dispatcher/RequestDispatcherInstrumentation.java:105-110 | At every point of a trace, while some dispatch is in progress, the innermost dispatch's span is both the slot value and the current span, and it is not ended yet. When none is in progress, the slot and context are the originals. |
| Nesting.ReturnRestoresEnclosing | instrumentation/servlet/src/main/java/io/opentelemetry/auto/instrumentation/servlet/dispatcher/RequestDispatcherInstrumentation.java:123-133 | After dispatch k returns, the slot and the current span are dispatch k-1's span, or the original values when k = 1. Dispatch k's span is ended exactly once. Its error is the thrown error, and it has no error after a normal return. |
| Scenario.ForwardThenFailingInclude | instrumentation/servlet/src/main/java/io/opentelemetry/auto/instrumentation/servlet/dispatcher/RequestDispatcherInstrumentation.java:86-134 | Example: a forward to "/a" contains an include of "/b", and the include throws. After the include returns, the slot and current span are the forward's span. After the forward returns, they are the server span again. Both created spans are ended once with the error and their targets. |
| FailOpen.EnterAborted | instrumentation/servlet/src/main/java/io/opentelemetry/auto/instrumentation/servlet/dispatcher/RequestDispatcherInstrumentation.java:85-111 | An enter hook that throws at any statement returns `null` and never switches the ambient context. It leaves the slot alone unless the throw came after the slot write. It changes nothing if the throw came before the span was started. |
| FailOpen.ExitAborted | instrumentation/servlet/src/main/java/io/opentelemetry/auto/instrumentation/servlet/dispatcher/RequestDispatcherInstrumentation.java:113-134 | An exit hook that throws still restores the slot, unless the restoring write itself threw. It leaves the ambient context switched, and it does not end the span unless the throw came at closing the scope. |
| FailOpen.AbortedActivationIsEnterWithoutScope | instrumentation/servlet/src/main/java/io/opentelemetry/auto/instrumentation/servlet/dispatcher/RequestDispatcherInstrumentation.java:96-110 | An enter hook that fails at `withSpan` has done everything the complete hook does, except switching the ambient context. |
| FailOpen.AbortedCloseIsExitWithoutClose | instrumentation/servlet/src/main/java/io/opentelemetry/auto/instrumentation/servlet/dispatcher/RequestDispatcherInstrumentation.java:126-133 | An exit hook that fails at closing the scope has done everything the complete hook does, except reinstating the ambient context. |
| FailOpen.AbortedActivationLeavesSlotOverwritten | instrumentation/servlet/src/main/java/io/opentelemetry/auto/instrumentation/servlet/dispatcher/RequestDispatcherInstrumentation.java:108-121 | This is the exception to the round trip. If `withSpan` throws after the slot write, the exit hook sees `null`. The slot keeps pointing at the new span, which differs from the saved value and is never ended. |
| FailOpen.AbortedEnterLeaksSpan | instrumentation/servlet/src/main/java/io/opentelemetry/auto/instrumentation/servlet/dispatcher/RequestDispatcherInstrumentation.java:96-121 | An enter hook that throws after starting its span leaves that span started but never ended. The slot is still right unless the throw came after the slot write. |
| FailOpen.AbortedExitStillRestoresSlot | instrumentation/servlet/src/main/java/io/opentelemetry/auto/instrumentation/servlet/dispatcher/RequestDispatcherInstrumentation.java:123-133 | If the exit hook throws anywhere after the restoring write, the slot still has its pre-dispatch value. The dispatch's span stays current instead of the one before the dispatch. |

## Left out

- Type and class-loader matching (`classLoaderMatcher`, `typeMatcher`, `helperClassNames`, `contextStore`) is left out. So is the argument-type and `isPublic` part of the method matcher, lines 49-81. These decide where the hooks are woven in, not what the hooks do. Only the method-name choice (forward or include) is modelled.
- The context store is a map from a dispatcher identity to a string, filled before the dispatch. How it gets filled is outside this code.
- The decorator's `afterStart` and `beforeFinish` have no effect on the modelled state. Their tags are not modelled. `onError` is modelled as recording the throwable on the span when there is one. The decorator's code is not part of this model.
- Tracer and span internals are not shown, so the model assumes three things. Span ids are handed out fresh and in increasing order. A span started under a valid current span is itself valid. Closing a scope reinstates the context that was current when it was opened.
- Attributes other than the resource name are not modelled, and neither are timestamps, status codes or export.
- The request attribute can hold any object. It is modelled as an optional span id. Setting it to `null` is modelled as the same state as never having set it, because the servlet API treats a `null` value as removal.
- The thrown error is passed through unchanged by the advice, because the exit hook cannot replace it. So `Exit` returns no error value.
- The traces in `Nesting` contain only hook invocations. The lemmas about them assume that the dispatched servlet's own code leaves the request slot and the ambient context as it found them between two hook invocations. Code that writes `SPAN_ATTRIBUTE` itself or leaves a scope open is not modelled. In these traces every hook also runs to completion. A hook cut short by a suppressed exception is covered one dispatch at a time in `FailOpen`. With such a hook inside a trace, "every created span is ended exactly once" no longer holds (`FailOpen.AbortedEnterLeaksSpan`).
- Threads, and scopes carried across threads, are left out. Dispatch is single-threaded call/return nesting.
- A statement that throws inside a hook is treated as having had no effect. The statements before it keep their effects.

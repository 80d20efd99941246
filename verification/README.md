# ModularMonolith.Messaging in Dafny

This project models the in-process message bus of ModularMonolith.Messaging.
A caller sends a message of some static type `T`. The bus:

- looks up the middlewares registered for `T`;
- keeps those whose `[MiddlewareTarget]` attribute admits `T`;
- sorts them stably by `Order`;
- wraps them around the consumer call, first middleware outermost;
- awaits the result.

The synchronous buses (`InMemoryBus`, `SyncInMemoryBus`) await their consumers one after another. The asynchronous bus (`AsyncInMemoryBus`) differs in three ways:

- it queues an envelope and returns;
- a dispatch loop dequeues envelopes and runs at most `MaxConcurrentMessages` of them at once;
- each envelope is retried up to `MaxRetries` times, starting all consumers concurrently with `Task.WhenAll`.

`MessageProcessingOptions` supplies the limits. The registration helper lets a callback override them.

The modules follow that structure:

| module | file | what it holds |
|---|---|---|
| `Types` | types.dfy | type identities, messages, exceptions, trace events |
| `Options` | options.dfy | the options record, its defaults, the configure callback |
| `Consumers` | consumers.dfy | `InvokeConsumer`, sequential and concurrent |
| `Middlewares` | middlewares.dfy | targeting rule, filter, stable sort by `Order` |
| `Pipeline` | pipeline.dfy | the reverse fold, its execution, the nesting laws |
| `Retry` | retry.dfy | the retry loop of `ProcessMessageAsync` |
| `Queue` | queue.dfy | the queue/throttle state machine and its invariant |
| `AsyncBus` | asyncbus.dfy | one envelope: retry around concurrent dispatch |
| `Scenarios` | scenarios.dfy | the unit-test fixture and the example application |

How the model reads the code:

- **Observable effects.** A send's effects are a trace of events (`Before(mw)`, `After(mw)`, `Consumed(consumer, message)`) together with how the awaited task ended (`Ok` or `Err(error)`). A middleware is reduced to its behaviour (`Around`, `BeforeOnly`, `AfterOnly`, `ShortCircuit` never calls `next`, `Fault` throws first), its `Order` and its optional target list. A consumer is reduced to its name and how its `ConsumeAsync` call ends. The returned task may complete, fault or end canceled. The call itself may also throw before any task exists.
- **After-actions.** In C#, code after `await next()` runs only when `next()` completed, so a fault travels outward and skips every after-action.
- **`Task.WhenAll`.** It enumerates `consumers.Select(...)` lazily, calling one consumer after another. A call that throws synchronously stops the enumeration: later consumers are never called, and that exception is the attempt's. When every call returned a task, `await` rethrows the first faulted task's exception in argument order. It reports a cancellation only when no task faulted, and completes only when every task completed.
- **Retry loop.** Each read of the envelope's cancellation token is numbered: the loop-head check, then the `Task.Delay` after a failure, then the next head check, and so on. `cancelAt = Some(n)` says read `n` and all later reads see the token cancelled. A delay that sees the token cancelled throws `OperationCanceledException`. It is thrown inside the `catch` block, so it leaves `ProcessMessageAsync` (`Escaped(Canceled)`).
- **Queue as atomic steps.** The asynchronous bus is modelled as atomic steps over one state: `Send`, `Take`, `Admit`, `Complete`, `Dispose`.
  - The dispatch loop dequeues an envelope before it waits for a throttle slot. One loop iteration is therefore two steps: `Take` (signal wait and `TryDequeue`) and `Admit` (throttle acquire). Between them the envelope sits in `held`.
  - A step that would suspend returns `Waiting` and changes nothing.
  - `sent` and `taken` record every envelope ever enqueued and dequeued. They exist to state FIFO.
- **Cancelled sends skip the capacity check.** `SendAsync` waits for room with `while (Count >= MaxQueueSize && !token.IsCancellationRequested)`. A token that is already cancelled ends the wait, and the envelope is still enqueued. So a cancelled send can push the queue past `MaxQueueSize`. The check and the enqueue also take no lock. Two uncancelled senders can both see room for one more and both enqueue. The model makes `Send` one atomic step, which excludes that race (see `Queue.ReachableInv` under Left out). The model keeps this behaviour (`Queue.CanceledSendBypassesCapacity`). The backpressure invariant is stated for uncancelled envelopes only. Such an envelope is never processed (`AsyncBus.CanceledEnvelopeNeverConsumed`).
- **Empty target list.** A middleware whose attribute lists no types never runs, because `Any` over an empty array is false.

## Model

| member | source | states |
|---|---|---|
| Options.DocumentedDefaults | src/ModularMonolith.Messaging/Abstractions/Configuration/MessageProcessingOptions.cs:8-36 | `Default`, the options constructor: a fresh options object allows twice the processor count of concurrent messages, a queue of 1000, swallows exceptions, waits 1000 ms between retries and retries 3 times |
| Options.Apply | src/ModularMonolith.Messaging/Abstractions/Configuration/MessageProcessingOptions.cs:12-36 | a property setter gives that property the assigned value and leaves the other four unchanged |
| Options.ConfigureLastWins | src/ModularMonolith.Messaging/DependencyInjection/MessagingServiceCollectionExtensions.cs:26-27 | `Configure`, the registration helper's callback: afterwards each property holds the last value the callback assigned to it, or its prior value when never assigned |
| Options.UnassignedKeepsDefault | src/ModularMonolith.Messaging/DependencyInjection/MessagingServiceCollectionExtensions.cs:26-28 | a property the callback never assigns keeps its documented default in the registered options |
| Consumers.InOrder | src/ModularMonolith.Messaging/Internal/InMemoryBus.cs:44-47 | the sequential loop delivers to consumers in registration order up to and including the first one that does not complete, and the way that consumer's call ends (its fault, or the cancellation) is the result |
| Consumers.InvokeSequential | src/ModularMonolith.Messaging/Internal/InMemoryBus.cs:39-48 | with no consumer the call throws the no-consumer error and delivers nothing; otherwise the sequential loop's deliveries and result |
| Consumers.WhenAll | src/ModularMonolith.Messaging/Abstractions/Infrastructure/AsyncInMemoryBus.cs:153 | awaiting the tasks completes iff every task completed; otherwise it rethrows the first faulted task's exception in argument order, and reports a cancellation only when no task faulted |
| Consumers.InvokeAll | src/ModularMonolith.Messaging/Abstractions/Infrastructure/AsyncInMemoryBus.cs:146-154 | with no consumer the attempt throws the no-consumer error; otherwise consumers are called in registration order up to and including the first call that throws; the attempt completes iff every consumer completes; a call that throws decides the exception; else the first faulting consumer's fault; else a cancellation |
| Consumers.SequentialMatchesConcurrent | src/ModularMonolith.Messaging/Abstractions/Infrastructure/AsyncInMemoryBus.cs:146-154 | both dispatch styles succeed together; the sequential deliveries are a prefix of the concurrent ones; when every consumer completes or faults, both end with the same exception; when every consumer completes, the runs are identical |
| Consumers.StylesCanDiffer | src/ModularMonolith.Messaging/Abstractions/Infrastructure/AsyncInMemoryBus.cs:146-154 | the styles can end differently: a canceled task loses to a later faulted one under `WhenAll` but not in the loop, and a call that throws hides an earlier faulted task and lets the concurrent style call one consumer more |
| Middlewares.EligibilityRule | src/ModularMonolith.Messaging/Internal/InMemoryBus.cs:50-55 | `Eligible`, the model of `ShouldRunMiddleware`: a middleware without the attribute runs for every type, one with an empty target list never runs, otherwise it runs iff the static type is listed |
| Middlewares.Filter | src/ModularMonolith.Messaging/Internal/InMemoryBus.cs:22-24 | the filter keeps exactly the eligible registered middlewares, each as often as it was registered, in registration order (the result is a subsequence of the input) |
| Middlewares.FilterIsUnique | src/ModularMonolith.Messaging/Internal/InMemoryBus.cs:22-24 | any subsequence of the registrations that holds every eligible middleware as often as registered, and nothing else, is the filter's result |
| Middlewares.FilterAppend | src/ModularMonolith.Messaging/Internal/InMemoryBus.cs:22-24 | filtering distributes over concatenation of registrations |
| Middlewares.FilterWithOrder | src/ModularMonolith.Messaging/Internal/InMemoryBus.cs:22-25 | filtering and then taking the middlewares of one `Order` equals taking that `Order` group and then filtering |
| Middlewares.SortByOrder | src/ModularMonolith.Messaging/Internal/InMemoryBus.cs:25 | the result is ascending by `Order`, a permutation of the input, and keeps middlewares with equal `Order` in their registration order (a stable sort) |
| Middlewares.SortIsUnique | src/ModularMonolith.Messaging/Internal/InMemoryBus.cs:25 | any ascending sequence that keeps each equal-`Order` group of the input in input order is exactly the sorted result |
| Middlewares.Selected | src/ModularMonolith.Messaging/Abstractions/Infrastructure/AsyncInMemoryBus.cs:129-133 | the chain for a send holds exactly the registered eligible middlewares, ascending by `Order`, each equal-`Order` group being the filter of that group in registration order |
| Pipeline.Compose | src/ModularMonolith.Messaging/Internal/InMemoryBus.cs:28-34 | the composed pipeline has the chain's middlewares as its layers and the first one outermost |
| Pipeline.ComposeLayers | src/ModularMonolith.Messaging/Abstractions/Infrastructure/SyncInMemoryBus.cs:21-27 | composition and taking the layers are inverse: any pipeline is rebuilt from its layers |
| Pipeline.Build | src/ModularMonolith.Messaging/Abstractions/Infrastructure/SyncInMemoryBus.cs:21-27 | wrapping the consumer call with the middlewares taken in reverse order yields the pipeline whose layers are the middlewares in their original order |
| Pipeline.Execute | src/ModularMonolith.Messaging/Abstractions/Infrastructure/AsyncInMemoryBus.cs:135-143 | running a pipeline ends as its first layer that does not call `next` ends (an error if it throws, success if it short-circuits), or as the consumer call when every layer calls through |
| Pipeline.Dispatch | src/ModularMonolith.Messaging/Internal/InMemoryBus.cs:17-37 | a send's middleware events all name selected middlewares; behind call-through middlewares its run is befores, consumers, afters on success; behind a short-circuit no consumer receives the message |
| Pipeline.CallThroughLayer | src/ModularMonolith.Messaging/Abstractions/Core/IMessageMiddleware.cs:7-15 | a middleware that awaits `next` contributes its before-action, then everything inside, then its after-action only if the inside completed; the inside's outcome passes through |
| Pipeline.NestingLaw | src/ModularMonolith.Messaging/Internal/InMemoryBus.cs:28-36 | when every middleware calls `next`, before-actions run outermost first, then the consumers, then (only on success) after-actions innermost first; the consumers' outcome is the send's outcome |
| Pipeline.ShortCircuitLaw | src/ModularMonolith.Messaging/Internal/InMemoryBus.cs:30-36 | a middleware that never calls `next` hides everything inside it: the run is that of the chain cut after it, and no consumer receives the message |
| Pipeline.EventsComeFromLayers | src/ModularMonolith.Messaging/Abstractions/Infrastructure/AsyncInMemoryBus.cs:135-143 | every middleware event of a run names a middleware of the composed chain |
| Pipeline.IneligibleNeverRuns | src/ModularMonolith.Messaging/Abstractions/Infrastructure/AsyncInMemoryBus.cs:156-161 | a registered middleware whose target list excludes the static type leaves no event in the run |
| Pipeline.NoConsumerFails | src/ModularMonolith.Messaging/Internal/InMemoryBus.cs:41-43 | with no consumer and call-through middlewares, the send fails with the no-consumer error after the before-actions, and no after-action runs |
| Pipeline.SequentialDelivery | src/ModularMonolith.Messaging/Abstractions/Infrastructure/SyncInMemoryBus.cs:10-41 | a synchronous send runs all before-actions, delivers in registration order up to and including the first consumer that does not complete, runs the after-actions only if every consumer completed, and ends as that first failing consumer ended |
| Pipeline.ConcurrentDelivery | src/ModularMonolith.Messaging/Abstractions/Infrastructure/AsyncInMemoryBus.cs:124-154 | one asynchronous attempt behind call-through middlewares runs all before-actions, then calls consumers up to the first call that throws, then runs the after-actions only on success; it completes iff every consumer completes |
| Retry.Loop | src/ModularMonolith.Messaging/Abstractions/Infrastructure/AsyncInMemoryBus.cs:93-121 | from any loop state: attempts never exceed the remaining budget, every attempt but the last failed, the loop delivers iff the last attempt completed, without swallowing there is at most one attempt, attempts happen only before the token is cancelled, and with swallowing the only escaping exception is the delay's cancellation |
| Retry.ProcessMessage | src/ModularMonolith.Messaging/Abstractions/Infrastructure/AsyncInMemoryBus.cs:88-122 | at most `MaxRetries + 1` attempts, none when `MaxRetries` is negative or the token starts cancelled; delivered iff the last attempt completed; one attempt when exceptions are not swallowed |
| Retry.AlwaysFailing | src/ModularMonolith.Messaging/Abstractions/Infrastructure/AsyncInMemoryBus.cs:107-119 | with swallowing on and a message that always faults, exactly `MaxRetries + 1` attempts and `MaxRetries` delays run, with one retry line per retry and one final give-up line, and nothing propagates |
| Retry.SucceedsOn | src/ModularMonolith.Messaging/Abstractions/Infrastructure/AsyncInMemoryBus.cs:104-115 | if attempt `i` is the first to complete (within the budget), the loop stops after exactly `i + 1` attempts and `i` delays with `i` retry lines |
| Retry.UnswallowedFaultEscapes | src/ModularMonolith.Messaging/Abstractions/Infrastructure/AsyncInMemoryBus.cs:107 | with swallowing off, the first attempt's fault propagates out of the loop after one attempt and no delay |
| Queue.Create | src/ModularMonolith.Messaging/Abstractions/Infrastructure/AsyncInMemoryBus.cs:14-23 | construction throws iff `MaxConcurrentMessages` is negative; otherwise the bus starts empty with the configured limits and satisfies the invariant |
| Queue.Send | src/ModularMonolith.Messaging/Abstractions/Infrastructure/AsyncInMemoryBus.cs:25-53 | a disposed bus and a null message are rejected with their exceptions; the sender waits iff the queue is full and its token is not cancelled; otherwise the envelope is appended at the tail with the next ticket, the signal rises by one and nothing else changes |
| Queue.Take | src/ModularMonolith.Messaging/Abstractions/Infrastructure/AsyncInMemoryBus.cs:62-66 | the dispatch loop proceeds iff the bus is live, holds nothing and the signal is positive; it consumes one signal and takes the queue's head when there is one (an empty queue leaves everything else as it was); no other field changes |
| Queue.Admit | src/ModularMonolith.Messaging/Abstractions/Infrastructure/AsyncInMemoryBus.cs:68-73 | the held envelope starts processing iff a throttle slot is free; it moves from held to in-flight and no other field changes |
| Queue.Complete | src/ModularMonolith.Messaging/Abstractions/Infrastructure/AsyncInMemoryBus.cs:72-73 | a processing envelope gives back exactly one slot: that envelope leaves the in-flight list, the other in-flight envelopes stay in order, it is recorded as released, and nothing else changes; an envelope not in flight releases nothing |
| Queue.Dispose | src/ModularMonolith.Messaging/Abstractions/Infrastructure/AsyncInMemoryBus.cs:163-184 | disposing marks the bus disposed, is idempotent, drops the envelope waiting for a slot, and changes nothing else (queued and in-flight envelopes stay where they are) |
| Queue.SendKeepsInv | src/ModularMonolith.Messaging/Abstractions/Infrastructure/AsyncInMemoryBus.cs:40-52 | an accepted send keeps FIFO order, signal/queue agreement and the bound on uncancelled envelopes |
| Queue.TakeKeepsInv | src/ModularMonolith.Messaging/Abstractions/Infrastructure/AsyncInMemoryBus.cs:62-66 | dequeuing keeps the invariant |
| Queue.AdmitKeepsInv | src/ModularMonolith.Messaging/Abstractions/Infrastructure/AsyncInMemoryBus.cs:69 | acquiring a slot keeps in-flight work within `MaxConcurrentMessages` and the slot accounting |
| Queue.CompleteKeepsInv | src/ModularMonolith.Messaging/Abstractions/Infrastructure/AsyncInMemoryBus.cs:72-73 | releasing a slot keeps the invariant, in particular no ticket released twice |
| Queue.DisposeKeepsInv | src/ModularMonolith.Messaging/Abstractions/Infrastructure/AsyncInMemoryBus.cs:165-169 | disposing keeps the invariant |
| Queue.ReleasesOnce | src/ModularMonolith.Messaging/Abstractions/Infrastructure/AsyncInMemoryBus.cs:72-73 | once an envelope has released its slot, a second release of the same envelope is impossible |
| Queue.NextKeepsInv | src/ModularMonolith.Messaging/Abstractions/Infrastructure/AsyncInMemoryBus.cs:25-86 | every step of the bus, including a suspended or failing one, keeps the invariant |
| Queue.ReachableInv | src/ModularMonolith.Messaging/Abstractions/Infrastructure/AsyncInMemoryBus.cs:14-86 | in every state reachable from construction: dequeued followed by queued is exactly what was enqueued, the signal equals the queue length, at most `MaxConcurrentMessages` envelopes are processing, and no uncancelled envelope sits at position `MaxQueueSize` or beyond |
| Queue.UncancelledQueueBounded | src/ModularMonolith.Messaging/Abstractions/Infrastructure/AsyncInMemoryBus.cs:40-48 | when no queued envelope was cancelled, the queue holds at most `MaxQueueSize` envelopes |
| Queue.CanceledSendBypassesCapacity | src/ModularMonolith.Messaging/Abstractions/Infrastructure/AsyncInMemoryBus.cs:44-51 | a send whose token is already cancelled is enqueued even into a full queue, leaving it longer than `MaxQueueSize` |
| AsyncBus.ProcessEnvelope | src/ModularMonolith.Messaging/Abstractions/Infrastructure/AsyncInMemoryBus.cs:88-105 | an envelope cancelled before processing gets no attempt, and attempts stay within the retry budget; each attempt resolves from its own scope |
| AsyncBus.Attempt | src/ModularMonolith.Messaging/Abstractions/Infrastructure/AsyncInMemoryBus.cs:124-154 | behind call-through middlewares one attempt completes iff a consumer is registered and every consumer completes |
| AsyncBus.LastAttemptDecides | src/ModularMonolith.Messaging/Abstractions/Infrastructure/AsyncInMemoryBus.cs:93-105 | an envelope with at least one attempt is delivered iff its last attempt completed |
| AsyncBus.EarlierAttemptsFailed | src/ModularMonolith.Messaging/Abstractions/Infrastructure/AsyncInMemoryBus.cs:104-114 | every attempt before the last one failed: the loop retries only after a fault |
| AsyncBus.TransientFaultRecovers | src/ModularMonolith.Messaging/Abstractions/Infrastructure/AsyncInMemoryBus.cs:93-115 | when the attempts before attempt `i` fail and attempt `i` (within the budget) completes, the envelope is delivered after exactly `i` retries, each logged |
| AsyncBus.CanceledEnvelopeNeverConsumed | src/ModularMonolith.Messaging/Abstractions/Infrastructure/AsyncInMemoryBus.cs:93 | an envelope whose token was cancelled when it was sent never reaches a consumer and ends at the loop head |
| AsyncBus.NoConsumerIsRetried | src/ModularMonolith.Messaging/Abstractions/Infrastructure/AsyncInMemoryBus.cs:148-150 | the missing-consumer exception is retried like any fault: `MaxRetries + 1` attempts, then abandoned without propagating |
| AsyncBus.DefaultsGiveFourAttempts | src/ModularMonolith.Messaging/Abstractions/Configuration/MessageProcessingOptions.cs:30-36 | under default options an always-failing message is tried four times with three retry lines and delays, then abandoned |
| AsyncBus.HealthyEnvelopeDeliveredOnce | src/ModularMonolith.Messaging/Abstractions/Infrastructure/AsyncInMemoryBus.cs:93-105 | an uncancelled envelope whose consumers all complete is delivered on the first attempt without retry or delay, every consumer receiving it between the before- and after-actions |
| Scenarios.FixtureSend | tests/ModularMonolith.Messaging.UnitTest/InMemoryBusTests.cs:38-102 | for the test fixture: the consumer receives the text, the targeted, before-only and after-only middlewares run, the non-matching one does not, and the trackers record Before A, B, C then After C, B, A |
| Scenarios.FixtureChain | tests/ModularMonolith.Messaging.UnitTest/InMemoryBusTests.cs:24-31 | with every middleware at the default order, the chain is the registration order without the non-matching middleware |
| Scenarios.EmptyContainerThrows | tests/ModularMonolith.Messaging.UnitTest/InMemoryBusTests.cs:64-76 | a send on a bus with nothing registered fails with the no-consumer error and delivers nothing |
| Scenarios.ExampleConfiguration | src/MessagingExample.Messages/Program.cs:28-34 | the example callback yields 10 concurrent messages, a queue of 500, 5 retries 2000 ms apart, and keeps swallowing on |

## Left out

- Concurrency and timing: the asynchronous bus is modelled as interleavings of atomic steps. Only safety properties are proved. Nothing is proved about progress or the 10 ms polling interval.
- The 5-second wait for the dispatch task in `Dispose`, and the disposal of the semaphores and the token source. A slot release after disposal would throw `ObjectDisposedException` inside a continuation nobody observes. `Queue.Complete` does not model that.
- Cancellation of a queued envelope after it was sent, including the shutdown token that `Dispose` cancels. It is not stored in the envelope. The retry loop sees it through its numbered token reads.
- A send whose token is cancelled during the capacity poll's `Task.Delay` throws and leaves the bus unchanged. There is no step for it, because it changes nothing.
- Reflection: `MakeGenericMethod`, `GetCustomAttribute`, and the assembly scanning of the registration helpers. Registration is an explicit `Registry` keyed by type identity.
- Middleware targeting uses a single target list. The source has two `IMessageMiddleware` interfaces and two `MiddlewareTargetAttribute` classes in different namespaces. `Internal/InMemoryBus.cs` reads the one in `ModularMonolith.Messaging.Attributes`, while most test middlewares carry the one in `Abstractions.Core`. The model treats them as one abstraction. It does not model a bus that overlooks an attribute from the other namespace.
- Console and logger output: only the retry loop's two diagnostic lines are kept, as `Diagnostic` values.
- Retry.Loop: does not model the 32-bit wrap-around of `retryCount`. With `MaxRetries == int.MaxValue` the C# loop never gives up, while the model's retry budget is finite.
- Retry.Loop: does not model the argument check of `Task.Delay`. A negative `RetryDelay` other than -1 ms throws `ArgumentOutOfRangeException` inside the `catch`. The delay length is not part of the model.
- Queue.ReachableInv: the bound on uncancelled queued envelopes holds because `Send` is one atomic step. In the source the capacity check and the enqueue are not atomic (`AsyncInMemoryBus.cs:40-51`). When the queue holds `MaxQueueSize - 1` envelopes, two uncancelled senders can both pass the check and both enqueue, leaving `MaxQueueSize + 1`. The interleaving of one send's check with another send's enqueue is not modelled.
- AsyncBus.ProcessEnvelope: `scopes` is any sequence of registries. The model does not require every scope to hold the same registrations, which the container guarantees. Every lemma that needs a fact about a scope states it for that scope.
- Options.DocumentedDefaults: states `2 * processorCount` without the 32-bit overflow, which no real processor count reaches.
- The `catch (Exception)` branch of the dispatch loop: nothing in the modelled steps can throw there.
- `EventPublisher` only forwards to `IBus.SendAsync`. `EventMessageBase` and the example consumers and middlewares are data and logging. None of them adds behaviour beyond what is modelled.
- The `Task.Yield` before the capacity poll only changes which thread continues. It has no effect on the bus state.

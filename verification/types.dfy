/** Vocabulary shared by every part of the bus model: type identities,
    messages, the exceptions the bus raises, and the events a send leaves
    behind. */
module Types {

  /** Stable identifier of a message's static type, the `typeof(TMessage)`
      that keys both handler lookup and middleware targeting. */
  type TypeId = string

  datatype Option<+T> = None | Some(value: T)

  /** A message value. `Null` stands for a null reference, which only the
      asynchronous bus rejects. */
  datatype Message = Null | Msg(body: string)

  /** The exceptions the modelled code raises or lets through. */
  datatype Error =
    | NoConsumer(messageType: TypeId)   // InvalidOperationException from InvokeConsumer
    | ConsumerFault(consumer: string)   // a consumer's ConsumeAsync faulted
    | MiddlewareFault(middleware: string) // a middleware threw instead of calling next
    | Canceled                          // OperationCanceledException
    | Disposed                          // ObjectDisposedException
    | NullMessage                       // ArgumentNullException
    | NegativeLimit                     // ArgumentOutOfRangeException from SemaphoreSlim

  /** How one awaited task ended: ran to completion, or faulted. */
  datatype Outcome = Ok | Err(error: Error)

  /** Observable effects of one pass through a pipeline, in the order they
      happen: a middleware's action before or after `next`, and a consumer
      receiving a message. */
  datatype Event =
    | Before(middleware: string)
    | After(middleware: string)
    | Consumed(consumer: string, message: Message)

  /** The trace of events and the way the awaited pipeline ended. */
  datatype Run = Run(trace: seq<Event>, outcome: Outcome)
}

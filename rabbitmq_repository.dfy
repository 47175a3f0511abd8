/**
 * `RabbitMQMessageRepository`, the shared publisher: an `Idle` repository
 * holds a connection and an exchange name; `try_init` opens a channel and
 * declares the exchange, giving a `Ready` one. Every broker operation on an
 * `Idle` repository fails with `NotInitialized` and asks nothing of the
 * broker.
 */
module RabbitMQRepository {
  import opened Wrappers
  import opened Utf8
  import opened Broker

  datatype Repository =
    | Idle(connection: Connection, exchangeName: string)
    | Ready(connection: Connection, channel: Channel, exchangeName: string)

  datatype Error =
    | RabbitMQError(message: string)
    | ChannelInternalError(message: string)
    | NotInitialized(message: string)
    | RpcCallIncorrectResponse(message: string)

  const PUBLISH_NOT_INITIALIZED: string := "Cannot publish message, repository is not initialized"
  const RPC_CALL_NOT_INITIALIZED: string := "Cannot RPC call, repository is not initialized"
  const REPLY_TO: string := "amq.rabbitmq.reply-to"
  const EMPTY_RESPONSE: string := "Empty response"
  const CONSUME_FAILED: string := "Failed to consume response message on queue amq.rabbitmq.reply-to: "

  /** `new`: an idle repository; no channel yet. */
  function New(connection: Connection, exchangeName: string): (r: Repository)
    ensures r.Idle? && r.connection == connection && r.exchangeName == exchangeName
  {
    Idle(connection, exchangeName)
  }

  /** `clone`: the channel is not shared, so the copy is idle again, whatever the state. */
  function Clone(r: Repository): (c: Repository)
    ensures c == New(r.connection, r.exchangeName)
  {
    match r
    case Idle(connection, exchangeName) => Idle(connection, exchangeName)
    case Ready(connection, _, exchangeName) => Idle(connection, exchangeName)
  }

  /**
   * The gate every broker operation goes through: the channel of a ready
   * repository, `NotInitialized(message)` for an idle one.
   */
  function Gate(r: Repository, message: string): (g: Result<Channel, Error>)
    ensures g.Err? <==> r.Idle?
    ensures g.Ok? ==> g.value == r.channel
    ensures g.Err? ==> g.error == NotInitialized(message)
  {
    match r
    case Idle(_, _) => Err(NotInitialized(message))
    case Ready(_, channel, _) => Ok(channel)
  }

  /**
   * `try_init`: a ready repository comes back as it is; an idle one opens a
   * channel and declares its exchange (durable, of kind topic), and is then
   * ready on that channel. A broker refusal at either step is the error.
   */
  method TryInit(r: Repository, createFailure: Option<string>, declareFailure: Option<string>)
    returns (res: Result<Repository, Error>)
    modifies r.connection
    ensures r.Ready? ==> res == Ok(r) && unchanged(r.connection)
    ensures r.Idle? && createFailure.Some? ==>
              res == Err(RabbitMQError(createFailure.value)) && unchanged(r.connection)
    ensures r.Idle? && createFailure.None? ==>
              var ch := Channel(old(r.connection.channels));
              && r.connection.channels == old(r.connection.channels) + 1
              && (declareFailure.Some? ==>
                    && res == Err(RabbitMQError(declareFailure.value))
                    && r.connection.events == old(r.connection.events) + [ChannelCreated(ch)])
              && (declareFailure.None? ==>
                    && res == Ok(Ready(r.connection, ch, r.exchangeName))
                    && r.connection.events == old(r.connection.events)
                         + [ChannelCreated(ch), ExchangeDeclared(ch, r.exchangeName, Topic, true)])
  {
    if r.Ready? {
      return Ok(r);
    }
    var created := r.connection.CreateChannel(createFailure);
    if created.Err? {
      return Err(RabbitMQError(created.error));
    }
    var channel := created.value;
    var declared := r.connection.ExchangeDeclare(channel, r.exchangeName, Topic, true, declareFailure);
    if declared.Err? {
      return Err(RabbitMQError(declared.error));
    }
    res := Ok(Ready(r.connection, channel, r.exchangeName));
  }

  /** `publish`: on a ready repository, one message to its exchange with the given routing key. */
  method Publish(r: Repository, routingKey: string, data: seq<byte>, failure: Option<string>)
    returns (res: Result<(), Error>)
    modifies r.connection
    ensures r.Idle? ==> res == Err(NotInitialized(PUBLISH_NOT_INITIALIZED)) && unchanged(r.connection)
    ensures r.Ready? && failure.Some? ==> res == Err(RabbitMQError(failure.value)) && unchanged(r.connection)
    ensures r.Ready? && failure.None? ==>
              && res == Ok(())
              && r.connection.channels == old(r.connection.channels)
              && r.connection.events == old(r.connection.events)
                   + [Published(r.channel, r.exchangeName, routingKey, data, None)]
  {
    var gate := Gate(r, PUBLISH_NOT_INITIALIZED);
    if gate.Err? {
      return Err(gate.error);
    }
    var sent := r.connection.BasicPublish(gate.value, r.exchangeName, routingKey, data, None, failure);
    if sent.Err? {
      return Err(RabbitMQError(sent.error));
    }
    res := Ok(());
  }

  /**
   * `rpc_call`: on a ready repository, starts a consumer on the reply-to
   * pseudo-queue, then publishes the request with that queue as reply-to,
   * then returns the data of the first reply. `reply` is what the consumer
   * yields first: nothing (the stream ended), a delivery error, or a
   * delivery.
   */
  method RpcCall(r: Repository, routingKey: string, data: seq<byte>, consumeFailure: Option<string>,
                 publishFailure: Option<string>, reply: Option<Result<seq<byte>, string>>)
    returns (res: Result<seq<byte>, Error>)
    modifies r.connection
    ensures r.Idle? ==> res == Err(NotInitialized(RPC_CALL_NOT_INITIALIZED)) && unchanged(r.connection)
    ensures r.Ready? && consumeFailure.Some? ==>
              res == Err(RabbitMQError(consumeFailure.value)) && unchanged(r.connection)
    ensures r.Ready? && consumeFailure.None? ==>
              var consumer := ConsumerStarted(r.channel, REPLY_TO, true);
              var request := Published(r.channel, r.exchangeName, routingKey, data, Some(REPLY_TO));
              && r.connection.channels == old(r.connection.channels)
              && (publishFailure.Some? ==>
                    && res == Err(RabbitMQError(publishFailure.value))
                    && r.connection.events == old(r.connection.events) + [consumer])
              && (publishFailure.None? ==>
                    && r.connection.events == old(r.connection.events) + [consumer, request]
                    && res == RpcReply(reply))
  {
    var gate := Gate(r, RPC_CALL_NOT_INITIALIZED);
    if gate.Err? {
      return Err(gate.error);
    }
    var consumed := r.connection.BasicConsume(gate.value, REPLY_TO, true, consumeFailure);
    if consumed.Err? {
      return Err(RabbitMQError(consumed.error));
    }
    var sent := r.connection.BasicPublish(gate.value, r.exchangeName, routingKey, data, Some(REPLY_TO), publishFailure);
    if sent.Err? {
      return Err(RabbitMQError(sent.error));
    }
    res := RpcReply(reply);
  }

  /** What `rpc_call` makes of the first item of the reply stream. */
  function RpcReply(reply: Option<Result<seq<byte>, string>>): (res: Result<seq<byte>, Error>)
    ensures res.Ok? <==> reply.Some? && reply.value.Ok?
    ensures res.Ok? ==> res.value == reply.value.value
    ensures res.Err? ==> res.error.RpcCallIncorrectResponse?
    ensures reply.None? ==> res.error.message == EMPTY_RESPONSE
    ensures reply.Some? && reply.value.Err? ==> res.error.message == CONSUME_FAILED + reply.value.error
  {
    match reply
    case None => Err(RpcCallIncorrectResponse(EMPTY_RESPONSE))
    case Some(Err(e)) => Err(RpcCallIncorrectResponse(CONSUME_FAILED + e))
    case Some(Ok(d)) => Ok(d)
  }

  /** `rpc_respond`: on a ready repository, one message to the default exchange "", routed to `replyTo`. */
  method RpcRespond(r: Repository, replyTo: string, data: seq<byte>, failure: Option<string>)
    returns (res: Result<(), Error>)
    modifies r.connection
    ensures r.Idle? ==> res == Err(NotInitialized(PUBLISH_NOT_INITIALIZED)) && unchanged(r.connection)
    ensures r.Ready? && failure.Some? ==> res == Err(RabbitMQError(failure.value)) && unchanged(r.connection)
    ensures r.Ready? && failure.None? ==>
              && res == Ok(())
              && r.connection.channels == old(r.connection.channels)
              && r.connection.events == old(r.connection.events) + [Published(r.channel, "", replyTo, data, None)]
  {
    var gate := Gate(r, PUBLISH_NOT_INITIALIZED);
    if gate.Err? {
      return Err(gate.error);
    }
    var sent := r.connection.BasicPublish(gate.value, "", replyTo, data, None, failure);
    if sent.Err? {
      return Err(RabbitMQError(sent.error));
    }
    res := Ok(());
  }
}

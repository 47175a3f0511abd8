/**
 * The embedding worker's `MessageRabbitMQRepository`: a connection, an
 * exchange name and a `ChannelContainer` that opens the channel the first
 * time it is asked for one and hands out that same channel afterwards.
 */
module MessageRepository {
  import opened Wrappers
  import opened Utf8
  import opened Broker

  datatype Error =
    | RabbitMQError(message: string)
    | JsonError(message: string)
    | ChannelInternalError(message: string)

  /** The lazily created channel of one repository. */
  class ChannelContainer {
    var channel: Option<Channel>

    constructor()
      ensures channel == None
    {
      channel := None;
    }

    /**
     * `get_channel`: the stored channel if there is one, and the connection
     * is not touched; otherwise a new channel, which is stored, or the
     * broker's refusal, after which the container is still empty.
     */
    method GetChannel(connection: Connection, createFailure: Option<string>) returns (r: Result<Channel, Error>)
      modifies this, connection
      ensures old(channel).Some? ==> r == Ok(old(channel).value) && channel == old(channel) && unchanged(connection)
      ensures old(channel).None? && createFailure.Some? ==>
                r == Err(RabbitMQError(createFailure.value)) && channel == None && unchanged(connection)
      ensures old(channel).None? && createFailure.None? ==>
                && r == Ok(Channel(old(connection.channels)))
                && channel == Some(r.value)
                && connection.channels == old(connection.channels) + 1
                && connection.events == old(connection.events) + [ChannelCreated(r.value)]
    {
      if channel.Some? {
        return Ok(channel.value);
      }
      var created := connection.CreateChannel(createFailure);
      if created.Err? {
        return Err(RabbitMQError(created.error));
      }
      channel := Some(created.value);
      r := Ok(created.value);
    }
  }

  class MessageRabbitMQRepository {
    const connection: Connection
    const container: ChannelContainer
    const exchangeName: string

    /** `new`: no channel is created yet. */
    constructor(connection: Connection, exchangeName: string)
      ensures this.connection == connection && this.exchangeName == exchangeName
      ensures fresh(container) && container.channel == None
    {
      this.connection := connection;
      this.exchangeName := exchangeName;
      container := new ChannelContainer();
    }

    /** `clone`: same connection and exchange, with a container of its own that is empty. */
    method Clone() returns (c: MessageRabbitMQRepository)
      ensures fresh(c) && fresh(c.container) && c.container.channel == None
      ensures c.connection == connection && c.exchangeName == exchangeName
    {
      c := new MessageRabbitMQRepository(connection, exchangeName);
    }

    /**
     * `try_init`: gets the channel (opening it if need be) and declares the
     * exchange on it, durable and of kind topic.
     */
    method TryInit(createFailure: Option<string>, declareFailure: Option<string>) returns (r: Result<(), Error>)
      modifies container, connection
      ensures old(container.channel).Some? ==>
                container.channel == old(container.channel) && connection.channels == old(connection.channels)
      ensures old(container.channel).None? && createFailure.Some? ==>
                r == Err(RabbitMQError(createFailure.value)) && container.channel == None && unchanged(connection)
      ensures old(container.channel).None? && createFailure.None? ==>
                container.channel == Some(Channel(old(connection.channels)))
                && connection.channels == old(connection.channels) + 1
      ensures container.channel.Some? ==>
                var ch := container.channel.value;
                var created := if old(container.channel).Some? then [] else [ChannelCreated(ch)];
                && (declareFailure.Some? ==>
                      r == Err(RabbitMQError(declareFailure.value)) && connection.events == old(connection.events) + created)
                && (declareFailure.None? ==>
                      && r == Ok(())
                      && connection.events == old(connection.events) + created
                           + [ExchangeDeclared(ch, exchangeName, Topic, true)])
    {
      var got := container.GetChannel(connection, createFailure);
      if got.Err? {
        return Err(got.error);
      }
      var declared := connection.ExchangeDeclare(got.value, exchangeName, Topic, true, declareFailure);
      if declared.Err? {
        return Err(RabbitMQError(declared.error));
      }
      r := Ok(());
    }

    /**
     * `publish`: gets the channel (opening it if need be) and publishes one
     * message on it to the repository's exchange.
     */
    method Publish(messageKey: string, data: seq<byte>, createFailure: Option<string>, publishFailure: Option<string>)
      returns (r: Result<(), Error>)
      modifies container, connection
      ensures old(container.channel).Some? ==>
                container.channel == old(container.channel) && connection.channels == old(connection.channels)
      ensures old(container.channel).None? && createFailure.Some? ==>
                r == Err(RabbitMQError(createFailure.value)) && container.channel == None && unchanged(connection)
      ensures old(container.channel).None? && createFailure.None? ==>
                container.channel == Some(Channel(old(connection.channels)))
                && connection.channels == old(connection.channels) + 1
      ensures container.channel.Some? ==>
                var ch := container.channel.value;
                var created := if old(container.channel).Some? then [] else [ChannelCreated(ch)];
                && (publishFailure.Some? ==>
                      r == Err(RabbitMQError(publishFailure.value)) && connection.events == old(connection.events) + created)
                && (publishFailure.None? ==>
                      && r == Ok(())
                      && connection.events == old(connection.events) + created
                           + [Published(ch, exchangeName, messageKey, data, None)])
    {
      var got := container.GetChannel(connection, createFailure);
      if got.Err? {
        return Err(got.error);
      }
      var sent := connection.BasicPublish(got.value, exchangeName, messageKey, data, None, publishFailure);
      if sent.Err? {
        return Err(RabbitMQError(sent.error));
      }
      r := Ok(());
    }
  }
}

/**
 * The RabbitMQ broker as the repositories see it through `lapin`: a
 * connection that opens channels, and the calls made on a channel (declare
 * an exchange, start a consumer, publish). Whether the broker accepts a call
 * is not known here, so every call takes the failure it meets as a
 * parameter; `events` records, in order, what the broker was asked to do and
 * accepted.
 */
module Broker {
  import opened Wrappers
  import opened Utf8

  datatype Channel = Channel(id: nat)

  datatype ExchangeKind = Topic

  datatype Event =
    | ChannelCreated(channel: Channel)
    | ExchangeDeclared(channel: Channel, name: string, kind: ExchangeKind, durable: bool)
    | ConsumerStarted(channel: Channel, queue: string, noAck: bool)
    | Published(channel: Channel, exchange: string, routingKey: string, data: seq<byte>, replyTo: Option<string>)

  /** A `lapin::Connection`. */
  class Connection {
    ghost var events: seq<Event>
    var channels: nat

    constructor()
      ensures events == [] && channels == 0
    {
      events := [];
      channels := 0;
    }

    /** `create_channel`: a new channel, or the broker's refusal. */
    method CreateChannel(failure: Option<string>) returns (r: Result<Channel, string>)
      modifies this
      ensures failure.Some? ==> r == Err(failure.value) && unchanged(this)
      ensures failure.None? ==>
                && r == Ok(Channel(old(channels)))
                && channels == old(channels) + 1
                && events == old(events) + [ChannelCreated(r.value)]
    {
      if failure.Some? {
        r := Err(failure.value);
      } else {
        r := Ok(Channel(channels));
        channels := channels + 1;
        events := events + [ChannelCreated(r.value)];
      }
    }

    /** `exchange_declare` on `channel`. */
    method ExchangeDeclare(channel: Channel, name: string, kind: ExchangeKind, durable: bool, failure: Option<string>)
      returns (r: Result<(), string>)
      modifies this
      ensures failure.Some? ==> r == Err(failure.value) && unchanged(this)
      ensures failure.None? ==>
                && r == Ok(())
                && channels == old(channels)
                && events == old(events) + [ExchangeDeclared(channel, name, kind, durable)]
    {
      if failure.Some? {
        r := Err(failure.value);
      } else {
        r := Ok(());
        events := events + [ExchangeDeclared(channel, name, kind, durable)];
      }
    }

    /** `basic_consume` on `channel`. */
    method BasicConsume(channel: Channel, queue: string, noAck: bool, failure: Option<string>)
      returns (r: Result<(), string>)
      modifies this
      ensures failure.Some? ==> r == Err(failure.value) && unchanged(this)
      ensures failure.None? ==>
                && r == Ok(())
                && channels == old(channels)
                && events == old(events) + [ConsumerStarted(channel, queue, noAck)]
    {
      if failure.Some? {
        r := Err(failure.value);
      } else {
        r := Ok(());
        events := events + [ConsumerStarted(channel, queue, noAck)];
      }
    }

    /** `basic_publish` on `channel`. */
    method BasicPublish(channel: Channel, exchange: string, routingKey: string, data: seq<byte>,
                        replyTo: Option<string>, failure: Option<string>)
      returns (r: Result<(), string>)
      modifies this
      ensures failure.Some? ==> r == Err(failure.value) && unchanged(this)
      ensures failure.None? ==>
                && r == Ok(())
                && channels == old(channels)
                && events == old(events) + [Published(channel, exchange, routingKey, data, replyTo)]
    {
      if failure.Some? {
        r := Err(failure.value);
      } else {
        r := Ok(());
        events := events + [Published(channel, exchange, routingKey, data, replyTo)];
      }
    }
  }
}

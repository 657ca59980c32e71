/** The message broker as the service sees it: a template that hands
    messages to an exchange under a routing key. */
module Messaging {
  import opened Wrappers

  /** The topic exchange deletion events go to. */
  const USER_EXCHANGE: string := "user.exchange"
  /** The routing key of a deletion event. */
  const USER_DELETED_ROUTING_KEY: string := "user.deleted"

  /** One message accepted by the broker. */
  datatype Message = Message(exchange: string, routingKey: string, payload: string)

  /** The event that announces the deletion of account `userId`. */
  function DeletionEvent(userId: string): (event: Message)
    ensures event.exchange == "user.exchange" && event.routingKey == "user.deleted"
    ensures event.payload == userId
  {
    Message(USER_EXCHANGE, USER_DELETED_ROUTING_KEY, userId)
  }

  /** The broker client. `sent` is every message the broker has accepted,
      oldest first; it is only ever appended to. */
  class RabbitTemplate {
    var sent: seq<Message>

    constructor ()
      ensures sent == []
    {
      sent := [];
    }

    /** Publishes `payload` to `exchange` under `routingKey`. When `fault`
        holds a message the broker refuses the message and the call throws
        with it; nothing is then appended. */
    method ConvertAndSend(exchange: string, routingKey: string, payload: string, fault: Option<string>)
      returns (o: Outcome)
      modifies this
      ensures o == if fault.Some? then Fail(fault.value) else Pass
      ensures sent == if fault.Some? then old(sent) else old(sent) + [Message(exchange, routingKey, payload)]
    {
      if fault.Some? {
        return Fail(fault.value);
      }
      sent := sent + [Message(exchange, routingKey, payload)];
      o := Pass;
    }
  }
}

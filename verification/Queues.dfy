/** The in-process queues and the drain loops of src/util.rs. */
module Queues {
  import opened Messages

  datatype Received<+M> = Message(message: M) | Empty | Disconnected

  datatype Drained<+M> = Batch(messages: seq<M>) | Failed(drop: Drop)

  /** One FIFO queue with a sending and a receiving end, either of which can go away. */
  class Channel<M> {
    var queue: seq<M>
    var senderAlive: bool
    var receiverAlive: bool

    constructor ()
      ensures queue == [] && senderAlive && receiverAlive
    {
      queue, senderAlive, receiverAlive := [], true, true;
    }

    /** Fails exactly when nobody is left to receive. */
    method Send(message: M) returns (sent: bool)
      modifies this`queue
      ensures sent == receiverAlive
      ensures queue == if sent then old(queue) + [message] else old(queue)
    {
      sent := receiverAlive;
      if sent {
        queue := queue + [message];
      }
    }

    /** A disconnection is reported once the queue is empty. */
    method TryRecv() returns (r: Received<M>)
      modifies this`queue
      ensures old(queue) != [] ==> r == Message(old(queue)[0]) && queue == old(queue)[1..]
      ensures old(queue) == [] ==> r == (if senderAlive then Empty else Disconnected) && queue == []
    {
      if queue != [] {
        r := Message(queue[0]);
        queue := queue[1..];
      } else {
        r := if senderAlive then Empty else Disconnected;
      }
    }
  }

  /** The queued messages in order, all of them lost if the sender is gone. */
  method Drain<M>(receiver: Channel<M>) returns (r: Drained<M>)
    modifies receiver`queue
    ensures receiver.queue == []
    ensures receiver.senderAlive ==> r == Batch(old(receiver.queue))
    ensures !receiver.senderAlive ==> r == Failed(ApplicationThreadDisconnected)
  {
    var messages := [];
    while true
      invariant messages + receiver.queue == old(receiver.queue)
      decreases |receiver.queue|
    {
      var next := receiver.TryRecv();
      match next
      case Message(message) =>
        messages := messages + [message];
      case Empty =>
        return Batch(messages);
      case Disconnected =>
        return Failed(ApplicationThreadDisconnected);
    }
  }
}

/** The application's end of the client queues, src/client/mod.rs. */
module ClientApp {
  import opened Wrappers
  import opened Queues
  import opened BitVector

  type Chat = string

  /** The receiving end of a history queue: what is queued, what is held, and the shutdown latch. */
  datatype Inbox = Inbox(queue: seq<Chat>, senderAlive: bool, held: seq<Chat>, shutdown: bool)

  /** What taking the history leaves behind, and what it yields. */
  function TakeOf(i: Inbox): (Inbox, Option<seq<Chat>>) {
    if i.shutdown then (i, None)
    else if !i.senderAlive then (i.(queue := [], shutdown := true), None)
    else (i.(queue := [], held := []), Some(i.held + i.queue))
  }

  class Client {
    var chatHistory: seq<Chat>
    var worldState: Option<seq<nat>>
    var shutdown: bool
    const fromReliable: Channel<Chat>
    const fromLowLatency: Channel<seq<nat>>
    const toLowLatency: Channel<BitVal>

    constructor (fromReliable: Channel<Chat>, fromLowLatency: Channel<seq<nat>>, toLowLatency: Channel<BitVal>)
      ensures chatHistory == [] && worldState == None && !shutdown
      ensures this.fromReliable == fromReliable && this.fromLowLatency == fromLowLatency
      ensures this.toLowLatency == toLowLatency
    {
      this.fromReliable, this.fromLowLatency, this.toLowLatency := fromReliable, fromLowLatency, toLowLatency;
      chatHistory, worldState, shutdown := [], None, false;
    }

    function ChatInbox(): Inbox
      reads this, fromReliable
    {
      Inbox(fromReliable.queue, fromReliable.senderAlive, chatHistory, shutdown)
    }

    /** Queues the input behind the earlier ones, or latches shutdown when the servicer is gone. */
    method SendControllerInput(input: BitVal) returns (ok: bool)
      modifies this`shutdown, toLowLatency`queue
      ensures ok == (!old(shutdown) && toLowLatency.receiverAlive)
      ensures shutdown == !ok
      ensures toLowLatency.queue == if ok then old(toLowLatency.queue) + [input] else old(toLowLatency.queue)
    {
      if shutdown {
        return false;
      }
      ok := toLowLatency.Send(input);
      if !ok {
        shutdown := true;
      }
    }

    /** Hands out the newest world state not handed out before, or an empty one. */
    method TakeWorldState() returns (r: Option<seq<nat>>)
      modifies this`shutdown, this`worldState, fromLowLatency`queue
      ensures shutdown == (old(shutdown) || !fromLowLatency.senderAlive)
      ensures shutdown ==> r == None && worldState == old(worldState)
      ensures fromLowLatency.queue == if old(shutdown) then old(fromLowLatency.queue) else []
      ensures !shutdown ==> worldState == None && r == Some(
                var queued := old(fromLowLatency.queue);
                if queued != [] then queued[|queued| - 1]
                else if old(worldState).Some? then old(worldState).value
                else [])
    {
      if shutdown {
        return None;
      }
      var batch := Drain(fromLowLatency);
      match batch
      case Failed(_) =>
        shutdown := true;
        r := None;
      case Batch(states) =>
        for i := 0 to |states|
          invariant !shutdown && fromLowLatency.queue == []
          invariant worldState == if i == 0 then old(worldState) else Some(states[i - 1])
        {
          worldState := Some(states[i]);
        }
        var taken := worldState;
        worldState := None;
        r := Some(if taken.Some? then taken.value else []);
    }

    method TakeChatHistory() returns (r: Option<seq<Chat>>)
      modifies this`shutdown, this`chatHistory, fromReliable`queue
      ensures (ChatInbox(), r) == TakeOf(old(ChatInbox()))
      ensures r.Some? <==> !old(shutdown) && fromReliable.senderAlive
      ensures shutdown == (old(shutdown) || !fromReliable.senderAlive)
      ensures r.Some? ==> r.value == old(chatHistory) + old(fromReliable.queue) && chatHistory == []
      ensures r.None? ==> chatHistory == old(chatHistory)
      ensures fromReliable.queue == if old(shutdown) then old(fromReliable.queue) else []
    {
      if shutdown {
        return None;
      }
      var batch := Drain(fromReliable);
      match batch
      case Failed(_) =>
        shutdown := true;
        r := None;
      case Batch(chats) =>
        for i := 0 to |chats|
          invariant !shutdown && fromReliable.queue == []
          invariant chatHistory == old(chatHistory) + chats[..i]
        {
          chatHistory := chatHistory + [chats[i]];
        }
        assert chats[..|chats|] == chats;
        var taken := chatHistory;
        chatHistory := [];
        r := Some(taken);
    }
  }

  // ----- Conservation over runs

  /** A chat arrives, the servicer goes away, another queue latches shutdown, or the application takes the history. */
  datatype InboxEvent = Arrive(chat: Chat) | SenderGone | ShutdownElsewhere | Take

  /** The inbox, the chats that arrived, and the answer to every take. */
  datatype InboxRun = InboxRun(inbox: Inbox, arrived: seq<Chat>, answers: seq<Option<seq<Chat>>>) {
    function Taken(): seq<Chat> {
      Successes(answers)
    }
  }

  /** The chats in the successful answers. */
  function Successes(answers: seq<Option<seq<Chat>>>): seq<Chat> {
    if answers == [] then []
    else Successes(answers[..|answers| - 1]) + match answers[|answers| - 1] case None => [] case Some(chats) => chats
  }

  function RunInbox(events: seq<InboxEvent>): InboxRun {
    if events == [] then InboxRun(Inbox([], true, [], false), [], [])
    else
      var r := RunInbox(events[..|events| - 1]);
      match events[|events| - 1]
      case Arrive(chat) =>
        if r.inbox.senderAlive then
          InboxRun(r.inbox.(queue := r.inbox.queue + [chat]), r.arrived + [chat], r.answers)
        else r
      case SenderGone => r.(inbox := r.inbox.(senderAlive := false))
      case ShutdownElsewhere => r.(inbox := r.inbox.(shutdown := true))
      case Take =>
        var (inbox, taken) := TakeOf(r.inbox);
        InboxRun(inbox, r.arrived, r.answers + [taken])
  }

  /**
   Until shutdown the chats handed out so far, followed by the queued ones, are the chats that
   arrived, in order; after it what was handed out is still a prefix of them.
   */
  lemma {:induction false} ChatsConserved(events: seq<InboxEvent>)
    ensures var r := RunInbox(events);
            && r.Taken() <= r.arrived
            && (!r.inbox.shutdown ==> r.Taken() + r.inbox.queue == r.arrived && r.inbox.held == [])
  {
    if events == [] {
    } else {
      ChatsConserved(events[..|events| - 1]);
      var before := RunInbox(events[..|events| - 1]);
      var (_, taken) := TakeOf(before.inbox);
      assert (before.answers + [taken])[..|before.answers|] == before.answers;
    }
  }

  /** Once shut down, every later take is refused. */
  lemma {:induction false} ShutdownIsFinal(events: seq<InboxEvent>, more: seq<InboxEvent>)
    requires RunInbox(events).inbox.shutdown
    ensures RunInbox(events + more).inbox.shutdown && RunInbox(events).answers <= RunInbox(events + more).answers
    ensures var before, after := RunInbox(events).answers, RunInbox(events + more).answers;
            forall i :: |before| <= i < |after| ==> after[i] == None
  {
    if more == [] {
      assert events + more == events;
    } else {
      ShutdownIsFinal(events, more[..|more| - 1]);
      assert (events + more)[..|events + more| - 1] == events + more[..|more| - 1];
    }
  }
}

/** The client's low-latency servicer, src/client/low_latency.rs. */
module ClientServicer {
  import opened Wrappers
  import opened Messages
  import opened Queues
  import opened BitVector
  import opened Codec
  import opened Control
  import RunLength

  const MAX_PACKET_SIZE := 1500

  /** The largest number of payload bits whose words still fit a packet: 367 words. */
  const MAX_PAYLOAD_BITS := 11744

  /**
   Bytes of a serialized `ControllerInput`: variant tag, start tick, word count, words,
   last-word counter, element size.
   */
  function EncodedSize(c: CompressedWindow): nat {
    4 + 8 + 8 + 4 * |c.comp.bits.storage| + 1 + 8
  }

  /** One bit an input and the bits of one element a run come to more than fits. */
  ghost predicate Oversized(inputs: seq<BitVal>)
    requires inputs != []
  {
    |inputs| + inputs[0].Len() * |RunLength.RunStarts(Elements(inputs))| > MAX_PAYLOAD_BITS
  }

  /** What one attempt to send the buffer comes to. */
  datatype Attempt = Idle | Uncompressible | TooLarge | Packet(content: CompressedWindow)

  ghost function AttemptOf(w: TickWindow): Attempt {
    if w.inputs == [] then Idle
    else
      match ToCompressedOf(w)
      case None => Uncompressible
      case Some(content) => if EncodedSize(content) > MAX_PACKET_SIZE then TooLarge else Packet(content)
  }

  ghost function OutcomeOf(attempt: Attempt, io: Outcome): Outcome {
    match attempt
    case Idle => Ok
    case Uncompressible => Err(Warn(FailedToCompress))
    case TooLarge => Err(Exit)
    case Packet(_) => io
  }

  function PushedAll(w: TickWindow, inputs: seq<BitVal>): TickWindow {
    TickWindow(w.startTick, w.inputs + inputs)
  }

  class Servicer {
    const controllerSeq: ControllerSequence
    const toApplication: Channel<seq<nat>>
    const fromApplication: Channel<BitVal>
    /** Every datagram handed to the socket. */
    var sent: seq<CompressedWindow>

    constructor (toApplication: Channel<seq<nat>>, fromApplication: Channel<BitVal>)
      ensures controllerSeq.Value() == EMPTY && fresh(controllerSeq) && sent == []
      ensures this.toApplication == toApplication && this.fromApplication == fromApplication
    {
      this.toApplication, this.fromApplication := toApplication, fromApplication;
      controllerSeq := new ControllerSequence();
      sent := [];
    }

    /** A world state is passed on; an acknowledgement retires inputs from the buffer. */
    method ParseServerMessage(message: ServerMessage) returns (r: Outcome)
      modifies controllerSeq, toApplication`queue
      ensures controllerSeq.Value() ==
              if message.LastTickReceived? then Retired(old(controllerSeq.Value()), message.tick)
              else old(controllerSeq.Value())
      ensures toApplication.queue ==
              if message.WorldState? && toApplication.receiverAlive then old(toApplication.queue) + [message.state]
              else old(toApplication.queue)
      ensures r == if message.WorldState? && !toApplication.receiverAlive
                   then Err(Dropped(ApplicationThreadDisconnected)) else Ok
    {
      match message
      case WorldState(state) =>
        var delivered := toApplication.Send(state);
        r := if delivered then Ok else Err(Dropped(ApplicationThreadDisconnected));
      case LastTickReceived(tick) =>
        controllerSeq.RemoveTillTick(tick);
        r := Ok;
    }

    method ParseApplicationMessages(inputs: seq<BitVal>)
      modifies controllerSeq
      ensures controllerSeq.Value() == PushedAll(old(controllerSeq.Value()), inputs)
      ensures controllerSeq.startTick == old(controllerSeq.startTick)
      ensures controllerSeq.inputs == old(controllerSeq.inputs) + inputs
    {
      for i := 0 to |inputs|
        invariant controllerSeq.Value() == PushedAll(old(controllerSeq.Value()), inputs[..i])
      {
        controllerSeq.Push(inputs[i]);
        assert inputs[..i + 1] == inputs[..i] + [inputs[i]];
      }
      assert inputs[..|inputs|] == inputs;
    }

    /** `io` is what the socket answers if it is asked to send. */
    method SendControllerInputs(io: Outcome) returns (r: Outcome)
      modifies this`sent
      ensures var attempt := AttemptOf(controllerSeq.Value());
              && r == OutcomeOf(attempt, io)
              && sent == if attempt.Packet? && io == Ok then old(sent) + [attempt.content] else old(sent)
      ensures controllerSeq.inputs == [] ==> r == Ok && sent == old(sent)
      ensures !SameLengths(controllerSeq.inputs) ==> r == Err(Warn(FailedToCompress)) && sent == old(sent)
      ensures MustExit(controllerSeq.inputs) ==> r == Err(Exit) && sent == old(sent)
      ensures CanSend(controllerSeq.inputs) ==>
                && r == io
                && (io != Ok ==> sent == old(sent))
                && (io == Ok ==> exists c :: sent == old(sent) + [c] && Carries(c, controllerSeq.Value()))
    {
      AttemptCases(controllerSeq.Value());
      if !controllerSeq.IsEmpty() {
        var payload := controllerSeq.ToCompressed();
        if payload.None? {
          return Err(Warn(FailedToCompress));
        }
        if EncodedSize(payload.value) > MAX_PACKET_SIZE {
          return Err(Exit);
        }
        if io == Ok {
          sent := sent + [payload.value];
        }
        return io;
      }
      return Ok;
    }

    /** Moves every queued input into the buffer, in order, and sends the whole buffer. */
    method ForwardFromClientToServer(io: Outcome) returns (r: Outcome)
      modifies this`sent, controllerSeq, fromApplication`queue
      ensures fromApplication.queue == []
      ensures !fromApplication.senderAlive ==>
                r == Err(Exit) && controllerSeq.Value() == old(controllerSeq.Value()) && sent == old(sent)
      ensures fromApplication.senderAlive ==>
                var w := PushedAll(old(controllerSeq.Value()), old(fromApplication.queue));
                && controllerSeq.Value() == w
                && r == OutcomeOf(AttemptOf(w), io)
                && sent == old(sent) + if AttemptOf(w).Packet? && io == Ok then [AttemptOf(w).content] else []
      ensures fromApplication.senderAlive ==>
                && controllerSeq.startTick == old(controllerSeq.startTick)
                && controllerSeq.inputs == old(controllerSeq.inputs) + old(fromApplication.queue)
                && (controllerSeq.inputs == [] ==> r == Ok && sent == old(sent))
                && (!SameLengths(controllerSeq.inputs) ==> r == Err(Warn(FailedToCompress)) && sent == old(sent))
                && (MustExit(controllerSeq.inputs) ==> r == Err(Exit) && sent == old(sent))
                && (CanSend(controllerSeq.inputs) ==>
                      && r == io
                      && (io != Ok ==> sent == old(sent))
                      && (io == Ok ==> exists c :: sent == old(sent) + [c] && Carries(c, controllerSeq.Value())))
    {
      var batch := Drain(fromApplication);
      match batch
      case Batch(inputs) =>
        ParseApplicationMessages(inputs);
        r := SendControllerInputs(io);
      case Failed(_) =>
        r := Err(Exit);
    }
  }

  ghost predicate MustExit(inputs: seq<BitVal>) {
    inputs != [] && SameLengths(inputs) && Oversized(inputs)
  }

  ghost predicate CanSend(inputs: seq<BitVal>) {
    inputs != [] && SameLengths(inputs) && !Oversized(inputs)
  }

  /** The four kinds of buffer and what an attempt to send each comes to. */
  lemma AttemptCases(w: TickWindow)
    ensures w.inputs == [] <==> AttemptOf(w) == Idle
    ensures !SameLengths(w.inputs) <==> AttemptOf(w) == Uncompressible
    ensures MustExit(w.inputs) <==> AttemptOf(w) == TooLarge
    ensures CanSend(w.inputs) <==> AttemptOf(w).Packet?
    ensures AttemptOf(w).Packet? ==> Carries(AttemptOf(w).content, w)
  {
    CompressMeaning(w.inputs);
    if w.inputs != [] && ToCompressedOf(w).Some? {
      TooLargeIff(w);
    }
  }

  /** The servicer gives up for size exactly when the bits of its buffer exceed the 11744 that fit a packet. */
  lemma TooLargeIff(w: TickWindow)
    requires w.inputs != [] && ToCompressedOf(w).Some?
    ensures AttemptOf(w) == TooLarge <==> Oversized(w.inputs)
  {
    CompressedSize(w.inputs);
  }

  /** A packet that is sent carries the buffer exactly and fits the server's receive buffer. */
  lemma PacketCarriesWindow(w: TickWindow)
    requires AttemptOf(w).Packet?
    ensures FromCompressedOf(AttemptOf(w).content) == Some(w)
    ensures EncodedSize(AttemptOf(w).content) <= MAX_PACKET_SIZE
  {
    WindowRoundTrip(w);
  }
}

# Low-latency path of game_network, modelled and proved

This project models the UDP path of game_network and proves what it guarantees: the packed bit
vector and its run-length code (`src/bitvec.rs`), the client's controller-input buffer
(`src/control.rs`), the two low-latency servicers (`src/client/low_latency.rs`,
`src/server/low_latency.rs`), the queues between threads (`src/util.rs`, `src/client/mod.rs`), and
all of them joined by a network that loses, duplicates and reorders.

`dafny verify dfyconfig.toml` checks everything.

## Layout

| file | content |
|---|---|
| `Words.dfy` | 32-bit words: `\|`, `&` and `1 << i` on binary expansions |
| `BitVector.dfy` | the class `BitVec` and its frozen values, canonical representation |
| `RunLength.dfy` | the code on boolean sequences: round trip, language, prefixes, minimality, size |
| `Codec.dfy` | the loops of `compress` and `decompress` on packed words, proved against `RunLength` |
| `Control.dfy` | `ControllerSequence` as written, the intended retirement and append beside it |
| `Queues.dfy`, `Messages.dfy` | channels, drain loops, messages and error severities |
| `ClientServicer.dfy`, `ServerServicer.dfy`, `AddressBook.dfy` | the two servicers |
| `ClientApp.dfy` | the application's end of the client queues |
| `Network.dfy` | clients, server and network as one step function, and its invariant |
| `Steps.dfy` | what each step does to the state, and exactly when a servicer exits |
| `EndToEnd.dfy` | what every run guarantees |
| `Lockstep.dfy` | the lockstep guarantee, for one client and the intended retirement step |
| `Retirement.dfy` | exactly when either retirement step, with any number of clients, retires an input that was not forwarded |
| `Departures.dfy` | runs in which the written step, or a second client, breaks it |

## What the results say

* **Window safety.** In every run, each sequence forwarded for a client is, bit for bit, a
  contiguous window of that client's inputs, and successive windows never move back at either
  end (`EndToEnd.WindowSafety`). This holds of the code as written, for any registrations,
  any acknowledgements the application makes up and any stray datagrams.
* **Acknowledged implies delivered.** Every nonzero acknowledgement the servicer makes names a
  sequence already forwarded, also in states after an exit (`EndToEnd.AckedImpliesDelivered`).
* **Retirement is not what its caller describes.** `src/client/low_latency.rs:118-119` says that
  inputs the server has received are removed. `remove_till_tick` removes as many inputs as are
  *not* yet received, from the front, and always moves the start tick past the last one. The
  model keeps the code; `Control.RetirementMatchesIff` says for every buffer and tick when the
  two agree: the remaining inputs match exactly when there are none or the tick is the midpoint
  of the window, the start tick never does.
  * One late acknowledgement and one lost datagram lose two inputs for good
    (`Departures.WrittenStepLosesInputs`).
  * When equally long inputs are sent in rounds of any size, each delivered and acknowledged
    before the next, nothing ever leaves the buffer, and the client exits once a packet grows too
    large, at the latest in the round that brings the number of inputs past 11744
    (`Departures.PerfectNetwork`, `Departures.WrittenExitsIntendedDoesNot`).
* **The lockstep guarantee** that the protocol is named for (`src/bitvec.rs:11-12`) is proved for
  one client and the step its caller describes: what was forwarded reassembles to exactly a prefix
  of the inputs, and nothing outside that prefix has been retired (`Lockstep.LockstepHolds`).
* **The shared counter.** `last_tick_received` is one number for all clients, so with two clients
  even the intended step retires an input that was never forwarded
  (`Departures.SharedCounterLosesInput`).
* **When the guarantee holds.** `Retirement.LockstepIff` decides it for either step, any number of
  clients, any acknowledgements and any network: no input of a client is ever retired before it
  was forwarded exactly when each acknowledgement meets a condition on ticks as it arrives.
  * Intended step: the acknowledgement names no tick past the latest one forwarded *for this
    client*, or the client's last tick is not past that either.
  * Written step: it removes nothing, or no more than was forwarded since the latest
    retirement; if nothing was forwarded since then, what it removes must lie before the end of
    the latest window forwarded. For one client and an acknowledgement T of the servicer past
    the start tick S, with D the latest tick forwarded, this is
    |inputs| - (T - S) <= D - S (`Retirement.OneClientWrittenIff`).

## How to read the model

* A `class` stands for a struct that the source mutates; a datatype value stands for the same
  fields when nothing mutates them any more (queue elements, borrowed arguments, payloads).
  `BitVal` is the type of bit vectors that the operations can build.
* Every class method is proved against a function on such values; the network's step function
  uses these same functions.
* In `Network`, fields described as history (`taken`, `dropped`, `window` and `from` of a sent
  datagram, `src` and `packet` of a log entry) influence no step.
* `RunLength.Means`, `Codec.Denotes` and `Control.Carries` say what a payload stands for through the
  token language alone, so method contracts in these terms do not mention the decoder.
* A send that fails is a datagram that never arrives; an I/O error that ends a servicer is the
  step `Abandon` or `ServerAbandon`.
* `Network.Node.Inputs` is what the servicer took followed by what is queued; `EndToEnd.Accepted` is
  read off the events of a run, and `EndToEnd.InputsConserved` says the two are equal.
* `Policy` selects the retirement step that clients run, as written or as intended; every result
  of `EndToEnd` holds of both.

## Assumptions

* Serialization is lossless; a `ControllerInput` takes 29 bytes and 4 for each word. A datagram
  longer than the receive buffer is cut off and cannot be deserialized.
* A payload that deserializes is a well-formed bit vector.
* The bidirectional map is a partial bijection whose insert displaces conflicting pairs.
* Queues are FIFO and report a disconnection once they are empty.
* Ticks, lengths and element sizes are unbounded naturals; words are exactly 32 bits.
* One address is used by one client, and other senders do not use it.

## Model

| member | source | states |
|---|---|---|
| `Words.ShiftOne` | src/bitvec.rs:54 | the new bit has exactly the digit at the given position |
| `Words.BitOfOr` | src/bitvec.rs:56 | or-ing words or-s every digit |
| `Words.MaskTestsBit` | src/bitvec.rs:89 | masking with one bit is nonzero iff that digit is set |
| `BitVector.Packed.IsEmpty` | src/bitvec.rs:42-44 | looking at the counter alone decides emptiness of the bit sequence |
| `BitVector.Packed.Get` | src/bitvec.rs:79-90 | bit i of the sequence when i is below the length, None otherwise |
| `BitVector.BitVec.constructor` | src/bitvec.rs:23-28 | a new vector is well formed and holds no bits |
| `BitVector.BitVec.FromSlice` | src/bitvec.rs:30-36 | holds exactly the slice |
| `BitVector.BitVec.Push` | src/bitvec.rs:46-62 | appends one bit, across word boundaries, and keeps the words well formed |
| `BitVector.PushedBits` | src/bitvec.rs:46-62 | the three ways of changing the words all append the bit and leave unused digits zero |
| `BitVector.BitVec.Append` | src/bitvec.rs:64-68 | concatenates the bits of the other vector |
| `BitVector.Range` | src/bitvec.rs:70-77 | the slice, empty when start is not below end, None iff a bit is missing |
| `BitVector.Canonical` | src/bitvec.rs:4 | the derived equality of well-formed vectors is equality of their bits |
| `BitVector.StrayDigitBreaksEquality` | src/bitvec.rs:4 | one nonzero unused digit gives an unequal vector that reads the same at every index |
| `BitVector.WordCount` | src/bitvec.rs:38-40 | the number of words is max(1, ceil(bits / 32)) |
| `BitVector.PackExists` | src/bitvec.rs:30-36 | every bit sequence has a packed vector |
| `RunLength.RoundTrip` | src/bitvec.rs:122-175 | decoding the encoding of equally long elements gives them back, zero-length elements and none included |
| `RunLength.DecodeEncodeThen` | src/bitvec.rs:122-175 | the same in the middle of a payload, whatever follows |
| `RunLength.DecodedUniform` | src/bitvec.rs:133-137 | every decoded element has the element size |
| `RunLength.DecodeConcat` | src/bitvec.rs:122-151 | concatenated decodable payloads decode to the concatenated sequences |
| `RunLength.DecoderLanguage` | src/bitvec.rs:122-151 | a payload decodes iff it prints a legal token sequence, and then to what the tokens stand for |
| `RunLength.DecoderMeaning` | src/bitvec.rs:122-151 | decoding answers None iff no legal tokens print the payload, and otherwise exactly what they stand for |
| `RunLength.ParseUnique` | src/bitvec.rs:122-151 | a payload has at most one reading as tokens |
| `RunLength.PrefixSafety` | src/bitvec.rs:122-151 | a cut between tokens decodes to a prefix of the sequence, a cut inside a literal to None, and nothing else gives None |
| `RunLength.EncodeIsShortest` | src/bitvec.rs:153-175 | no payload for the same sequence is shorter than the encoder's |
| `RunLength.ShortestIsUniqueIff` | src/bitvec.rs:153-175 | it is the only shortest one iff elements have bits or there is at most one |
| `RunLength.EncodedLength` | src/bitvec.rs:153-175 | one bit per element and n more per maximal run of equal elements |
| `RunLength.SeamSaving` | src/bitvec.rs:153-175 | compressing two sequences together saves one literal iff the seam repeats |
| `RunLength.EncodeConcat` | src/bitvec.rs:156-172 | encoding a concatenation continues from the last element before it |
| `Codec.Compress` | src/bitvec.rs:153-175 | None iff some element has another length; otherwise a 0-bit for each element that repeats its predecessor word for word, a 1-bit and the element for every other |
| `Codec.PayloadIsEncode` | src/bitvec.rs:163-171 | comparing elements word for word encodes the same as comparing their bits |
| `Codec.CompressVec` | src/bitvec.rs:180-187 | None iff lengths differ; otherwise a shortest payload that stands for the queue, with the first element's length, or 0 |
| `Codec.CompressMeaning` | src/bitvec.rs:153-187 | the same of the function that the network's steps use |
| `Codec.Decompress` | src/bitvec.rs:122-151 | None iff no legal tokens print the payload, otherwise the packed elements they stand for |
| `Codec.DecompressLanguage` | src/bitvec.rs:122-151 | the same of the function that the network's steps use, for every reading of the payload as tokens |
| `Codec.DecodeFromIsDecode` | src/bitvec.rs:126-148 | resuming the loop at any index decodes the rest of the payload |
| `Codec.DecompressVec` | src/bitvec.rs:190-192 | None iff the payload cannot be read at the stored element size, otherwise what it stands for |
| `Codec.CompressesIffUniform` | src/bitvec.rs:178-179 | compression succeeds iff all elements are equally long |
| `Codec.PackedRoundTrip` | src/bitvec.rs:180-192 | decompression undoes compression, on the packed words |
| `Codec.RecompressNeverLengthens` | src/bitvec.rs:122-175 | compressing again what a payload decodes to takes no more bits or words |
| `Codec.CompressedSize` | src/bitvec.rs:153-175 | the exact number of bits and words of a compressed queue |
| `Control.ControllerSequence.constructor` | src/control.rs:18-23 | starts at tick 0 with no inputs |
| `Control.ControllerSequence.Push` | src/control.rs:25-27 | appends the input, leaves the start tick |
| `Control.ControllerSequence.Append` | src/control.rs:29-36 | appends what is left of the other sequence after skipping the start tick difference, nothing if that is not positive |
| `Control.AppendMatchesIff` | src/control.rs:29-36 | for all windows, the tick condition under which that is the joined window |
| `Control.AppendRepeatsInput` | src/control.rs:29-36 | two overlapping windows that `append` as written joins with an input repeated |
| `Control.ControllerSequence.ToCompressed` | src/control.rs:38-44 | None iff input lengths differ, otherwise a payload that stands for the inputs, with the start tick |
| `Control.ControllerSequence.RemoveTillTick` | src/control.rs:54-62 | drains last tick minus tick inputs from the front, restarts one past the last tick |
| `Control.ToControllerSequence` | src/control.rs:66-72 | None iff the payload cannot be read, otherwise the window it stands for, with the start tick |
| `Control.FromCompressedIff` | src/control.rs:66-72 | the same of the function that the network's steps use |
| `Control.WindowRoundTrip` | src/control.rs:38-73 | a compressed window decompresses to the same window |
| `Control.RetiredKeepsSuffix` | src/control.rs:54-62 | for every tick, the newest inputs are kept, as many as the intended step removes, and the last tick grows by one more than that |
| `Control.RetirementMatchesIff` | src/client/low_latency.rs:117-121 | when the written step leaves the inputs its caller describes: none, or the tick is the midpoint; the start tick never agrees |
| `Control.KeepsLaterLabelsIff` | src/control.rs:54-62 | by tick labels alone, when the written step keeps every input labelled with the acknowledged tick or a later one: they are at most half of the window |
| `Control.TickAccounting` | src/control.rs:46-62 | in every run the last tick is the inputs pushed plus one and the inputs left for each acknowledgement |
| `Control.BufferIsSuffix` | src/control.rs:25-62 | in every run the buffer is a suffix of the pushed inputs |
| `Queues.Channel.Send` | src/client/mod.rs:132-135 | queues behind the earlier messages, fails iff the receiver is gone |
| `Queues.Channel.TryRecv` | src/util.rs:33-43 | takes the oldest message, reports a disconnection when there is none left |
| `Queues.Drain` | src/util.rs:28-45 | all queued messages in order, or an error that discards them when the sender is gone |
| `ClientServicer.Servicer.constructor` | src/client/low_latency.rs:42-62 | starts with an empty buffer and nothing sent |
| `ClientServicer.Servicer.ParseServerMessage` | src/client/low_latency.rs:104-124 | an acknowledgement retires inputs, a world state is passed on or drops the client |
| `ClientServicer.Servicer.ParseApplicationMessages` | src/client/low_latency.rs:140-148 | the inputs enter the buffer in order |
| `ClientServicer.Servicer.SendControllerInputs` | src/client/low_latency.rs:151-179 | empty: Ok and nothing sent; lengths differ: the compression warning; equally long and oversized: exit; otherwise one packet that stands for the buffer, and the socket's answer |
| `ClientServicer.Servicer.ForwardFromClientToServer` | src/client/low_latency.rs:126-137 | takes every queued input, then answers and sends in the same four ways; exits without using the batch when the application is gone |
| `ClientServicer.AttemptCases` | src/client/low_latency.rs:151-176 | which of the four kinds of buffer each attempt to send belongs to |
| `ClientServicer.TooLargeIff` | src/client/low_latency.rs:165-171 | the size exit is taken iff elements plus n per run exceed 11744 bits |
| `ClientServicer.PacketCarriesWindow` | src/client/low_latency.rs:151-176 | a packet that is sent decodes to the buffer and fits the receive buffer |
| `AddressBook.Book.GetBySecond` | src/server/low_latency.rs:249 | finds exactly the registered address of a user |
| `AddressBook.Book.Insert` | src/server/low_latency.rs:232 | stays one-to-one, displaces exactly the pairs that share the address or the user |
| `AddressBook.Book.RemoveBySecond` | src/server/low_latency.rs:235 | stays one-to-one, removes exactly the user's pair |
| `ServerServicer.ParseApplicationMessages` | src/server/low_latency.rs:210-240 | keeps the latest message of each kind, registers exactly the pairs that nothing displaced, stays one-to-one |
| `ServerServicer.LatestOfEachKind` | src/server/low_latency.rs:220-230 | for each payload kind the latest message survives, and none iff there was none |
| `ServerServicer.RegisteredIff` | src/server/low_latency.rs:231-236 | a pair is registered after a batch iff it was there or came in and nothing displaced it since |
| `ServerServicer.FoldKeepsOneToOne` | src/server/low_latency.rs:231-236 | a batch keeps addresses and users one-to-one |
| `ServerServicer.FoldConcat` | src/server/low_latency.rs:210-240 | two batches in a row are their concatenation, later messages winning kind by kind |
| `ServerServicer.Servicer.constructor` | src/server/low_latency.rs:79-92 | starts with nobody registered and last tick 0 |
| `ServerServicer.Servicer.SendMessage` | src/server/low_latency.rs:242-262 | any payload goes to the address registered for the user with the socket's answer; nothing and Ok for an unknown user |
| `ServerServicer.Servicer.HandleControllerInput` | src/server/low_latency.rs:166-205 | unknown source and unreadable payload: their warnings and nothing changed; newer: counter set, then forwarded, or exit when the application is gone; acknowledged to the source with the counter |
| `ServerServicer.HandleCases` | src/server/low_latency.rs:166-205 | the same of the function that the network's steps use |
| `ServerServicer.Servicer.ForwardFromServerToClient` | src/server/low_latency.rs:123-141 | the latest message of each kind goes to the address its user has after the batch, world state first, a failed send suppressing the next |
| `ServerServicer.FoldDelivers` | src/server/low_latency.rs:123-141 | the same of the functions that the network's steps use |
| `ServerServicer.AckGoesBack` | src/server/low_latency.rs:171-204 | an acknowledgement returns to the datagram's source with the new counter; forwarded iff the counter grew and the step succeeded |
| `ClientApp.Client.constructor` | src/client/mod.rs:93-102 | starts with nothing held and not shut down |
| `ClientApp.Client.SendControllerInput` | src/client/mod.rs:123-138 | queues the input in order, or latches shutdown |
| `ClientApp.Client.TakeWorldState` | src/client/mod.rs:160-189 | the newest state not yet taken, an empty one otherwise, shutdown latched when the servicer is gone |
| `ClientApp.Client.TakeChatHistory` | src/client/mod.rs:192-220 | succeeds iff not shut down and the servicer is there, with all chats held and queued; otherwise shutdown is latched and the batch discarded |
| `ClientApp.ChatsConserved` | src/client/mod.rs:192-220 | until shutdown, chats taken followed by chats queued are the chats that arrived, in order |
| `ClientApp.ShutdownIsFinal` | src/client/mod.rs:195-197 | after shutdown every later take is refused |
| `Network.RetireNodeOk` | src/control.rs:54-62 | under either policy retirement only removes from the front and the last tick never falls |
| `Network.SpinNodeOk` | src/client/low_latency.rs:126-179 | a sent datagram decodes to a window of the sender's inputs |
| `Network.ServeOk` | src/server/low_latency.rs:152-205 | any datagram keeps the log strictly increasing and the counter and acknowledgements tied to it |
| `Network.BatchOk` | src/server/low_latency.rs:123-141 | so does any batch of application messages |
| `Network.StepOk` | src/server/low_latency.rs:116-120 | every step of the network keeps the invariant |
| `Network.RunOk` | src/client/low_latency.rs:83-87 | so does every run |
| `Steps.SpinEffect` | src/client/low_latency.rs:126-179 | a client's send adds one datagram that stands for the buffer iff the buffer can be sent, and exits iff it is equally long and oversized |
| `Steps.ClientExitsIff` | src/client/low_latency.rs:64-81 | a client's servicer stops at a step iff it is ended from outside or has to send such a buffer |
| `Steps.IgnoredEffect` | src/server/low_latency.rs:152-181 | a datagram that is too long, unreadable or from an unknown source changes nothing |
| `Steps.AcceptedEffect` | src/server/low_latency.rs:183-204 | every other datagram: counter, forwarding, acknowledgement, exit when the application is gone |
| `Steps.BatchEffect` | src/server/low_latency.rs:123-141 | a batch updates the registrations and sends its latest acknowledgement to its user |
| `Steps.ServerExitsIff` | src/server/low_latency.rs:98-111 | the server stops at a step iff it is ended from outside or has something newer to forward and no application |
| `Steps.ServerStaysUp` | src/server/low_latency.rs:98-111 | while the application stays, no run of datagrams from any address stops the server |
| `EndToEnd.InputsConserved` | src/client/mod.rs:123-138 | in every run the inputs a client's servicer took, followed by those queued, are the inputs accepted from its application, in order |
| `EndToEnd.WindowSafety` | src/server/low_latency.rs:166-205 | forwarded sequences are windows of the inputs accepted from the application and never move back at either end |
| `EndToEnd.WindowSafetyPerUser` | src/server/low_latency.rs:188-191 | with fixed registrations the same holds per user name |
| `EndToEnd.NothingTruncated` | src/util.rs:47-58 | no client datagram is longer than the receive buffer, and each decodes to the buffer it was made from |
| `EndToEnd.AckedImpliesDelivered` | src/server/low_latency.rs:183-204 | the counter is the maximum forwarded last tick before exit, these strictly increase over all clients, and every nonzero own acknowledgement names one |
| `EndToEnd.AckBound` | src/server/low_latency.rs:199-204 | without stray datagrams, an own acknowledgement never exceeds every client's last tick; with one client, never its own |
| `EndToEnd.PassedOverForGood` | src/server/low_latency.rs:184-197 | an input behind a forwarded window is forwarded later only if it was before |
| `Lockstep.StepLabelled` | src/client/low_latency.rs:117-121 | with one client and the intended step, ticks are input positions and nothing starts past what was delivered |
| `Lockstep.ReassembledIsPrefix` | src/server/mod.rs:18-19 | gap-free forwarded sequences reassemble by their ticks to a prefix of the inputs |
| `Lockstep.LockstepHolds` | src/bitvec.rs:10-12 | one client, intended step, any network: forwarded sequences reassemble to a prefix of the accepted inputs that contains every retired one |
| `Retirement.ForwardedIff` | src/server/low_latency.rs:184-197 | an input not yet retired has been forwarded iff it lies before the end of the client's latest forwarded window |
| `Retirement.RetiresPastReachIff` | src/control.rs:54-62 | under either step an acknowledgement retires an unforwarded input iff it removes something past that end |
| `Retirement.RunKeepsLabels` | src/control.rs:54-62 | as intended, tick labels stay input positions; as written, every datagram is of the current retirement or has only ticks before the start tick |
| `Retirement.IntendedRetiresEarlyIff` | src/server/low_latency.rs:72 | intended step, any number of clients: lockstep ends iff the acknowledgement and the client's last tick are both past the latest tick forwarded for that client |
| `Retirement.WrittenRetiresUnforwardedIff` | src/control.rs:54-62 | written step, any number of clients: an unforwarded input is retired iff more is removed than was forwarded since the latest retirement, or, if nothing was, past the latest window |
| `Retirement.OneClientWrittenIff` | src/control.rs:54-62 | one client, servicer's acknowledgement past the start tick: the count of inputs and ticks that decides it; acknowledging half of the window suffices |
| `Retirement.StaleAckWrittenIff` | src/control.rs:54-62 | an acknowledgement at or before the start tick empties the buffer, and when that retires an unforwarded input |
| `Retirement.LockstepIff` | src/client/low_latency.rs:117-121 | in every run, under either step, no input is retired before it was forwarded iff every acknowledgement is in time when it arrives |
| `Departures.LostForGood` | src/server/low_latency.rs:184-197 | a retired input that only stale datagrams carry is never forwarded in any continuation |
| `Departures.WrittenStepLosesInputs` | src/control.rs:54-62 | a run of four inputs in which the written step loses two for good |
| `Departures.PerfectNetwork` | src/client/low_latency.rs:151-176 | for rounds of any number of equally long inputs, each delivered and acknowledged before the next, the client exits iff some buffer is too large; as written every input stays in the buffer, as intended none does |
| `Departures.WrittenExitsIntendedDoesNot` | src/client/low_latency.rs:165-171 | on that schedule more than 11744 inputs end in an exit as written; as intended none do while each round fits a packet |
| `Departures.SharedCounterLosesInput` | src/server/low_latency.rs:72 | a run of two clients in which even the intended step loses an input for good |

## Left out

- Sockets, timeouts, sleeping, threads, logging: represented by the network's free choice of the next step and by an I/O answer passed to the methods that send.
- The reliable (TCP) servicers of client and server: reads and writes with little state beyond flags.
- The table that sorts I/O errors into warnings and drops: one branch a line.
- Malformed deserialized bit vectors, and overflow of ticks or element sizes: excluded by the assumptions above; the 64-bit subtraction in `append` is an integer subtraction here.
- Messages that arrive while a drain loop is running: they belong to the next drain.
- `Client.seq` and the servicer's `shutting_down` flag: no modelled step uses them.
- Words.ShiftOne: covers positions below 32, the only ones the source shifts by.

/**
 The lockstep promise behind the acknowledgement protocol: no input is retired before it was
 forwarded.  It holds of one client with the intended retirement step; the written step breaks
 it, and so does a second client, because all clients share one counter.
 */
module Lockstep {
  import opened Wrappers
  import opened Messages
  import opened AddressBook
  import opened BitVector
  import opened Control
  import opened ServerServicer
  import opened Network
  import opened EndToEnd

  // ----- The guarantee

  /** What the application can put together from the forwarded sequences by their tick labels alone. */
  function Reassembled(log: seq<Entry>): seq<BitVal> {
    if log == [] then []
    else
      var known, w := Reassembled(log[..|log| - 1]), log[|log| - 1].forward.window;
      if w.startTick <= |known| <= w.LastTick() then known + w.inputs[|known| - w.startTick..] else known
  }

  /** The application sends no acknowledgements of its own. */
  ghost predicate WorldStatesOnly(e: Event) {
    e.Batch? ==> forall j :: 0 <= j < |e.messages| && e.messages[j].Deliver? ==>
                   e.messages[j].message.payload.WorldState?
  }

  ghost predicate Quiet(events: seq<Event>) {
    NoStrays(events) && forall i :: 0 <= i < |events| ==> WorldStatesOnly(events[i])
  }

  /** Every forwarded sequence starts no later than where the one before it ended. */
  ghost predicate GapFree(log: seq<Entry>) {
    forall i :: 0 <= i < |log| ==> log[i].forward.window.startTick <= Delivered(log[..i])
  }

  /** Tick labels are positions in the client's inputs, and no buffer starts past what was delivered. */
  ghost predicate Labelled(s: State, a: Address) {
    && s.nodes.Keys == {a}
    && s.nodes[a].window.startTick == s.nodes[a].dropped <= Delivered(s.log)
    && (forall k :: 0 <= k < |s.net| ==> s.net[k].window.startTick == s.net[k].from <= Delivered(s.log))
    && (forall k :: 0 <= k < |s.acks| ==> s.acks[k].own)
    && AllFromClients(s)
    && GapFree(s.log)
  }

  lemma ReceiveLabelled(s: State, a: Address, b: Address, k: nat)
    requires Consistent(s) && Labelled(s, a)
    ensures Labelled(Step(AsIntended, s, Receive(b, k)), a)
  {
    if k < |s.acks| {
      AckWithinDelivered(s, k);
      RetireLabelled(s, a, b, k);
    }
  }

  /** Retiring up to a delivered tick leaves the buffer starting at a delivered position. */
  lemma RetireLabelled(s: State, a: Address, b: Address, k: nat)
    requires Labelled(s, a) && k < |s.acks| && s.acks[k].tick <= Delivered(s.log)
    ensures Labelled(Step(AsIntended, s, Receive(b, k)), a)
  {
  }

  lemma SpinLabelled(s: State, a: Address, b: Address)
    requires Labelled(s, a)
    ensures Labelled(Step(AsIntended, s, Spin(b)), a)
  {
  }

  lemma ForwardLabelled(s: State, a: Address, e: Entry)
    requires Labelled(s, a) && EntryOk(s, e) && e.packet.Some? && EntryTick(e) >= Delivered(s.log)
    ensures Labelled(s.(lastTick := EntryTick(e), log := s.log + [e]), a)
  {
    var log := s.log + [e];
    forall i | 0 <= i < |log|
      ensures log[i].forward.window.startTick <= Delivered(log[..i])
    {
      assert log[..i] == s.log[..i];
      assert s.log[..|s.log|] == s.log;
    }
  }

  lemma AcksLabelled(s: State, a: Address, datagrams: seq<Datagram>)
    requires Labelled(s, a)
    ensures Labelled(s.(acks := s.acks + AcksOf(datagrams, true)), a)
  {
    forall k | 0 <= k < |AcksOf(datagrams, true)|
      ensures AcksOf(datagrams, true)[k].own
    {
      AckMade(datagrams, true, k);
    }
  }

  lemma ArriveLabelled(s: State, a: Address, k: nat, alive: bool)
    requires Consistent(s) && Labelled(s, a)
    ensures Labelled(Step(AsIntended, s, Arrive(k, alive)), a)
  {
    if k < |s.net| {
      assert SentOk(s.nodes[a], s.net[k]);
      ServeLabelled(s, a, k, alive);
    }
  }

  lemma ServeLabelled(s: State, a: Address, k: nat, alive: bool)
    requires Labelled(s, a) && s.book.OneToOne() && Delivered(s.log) <= s.lastTick
    requires k < |s.net| && s.net[k].src == a && FromCompressedOf(s.net[k].content) == Some(s.net[k].window)
    ensures Labelled(Serve(s, a, s.net[k].content, Some(k), alive), a)
  {
    var t := Serve(s, a, s.net[k].content, Some(k), alive);
    var h := HandleOf(s.book, s.lastTick, alive, a, s.net[k].content);
    AckGoesBack(s.book, s.lastTick, alive, a, s.net[k].content);
    if t != s {
      if h.forwarded.Some? {
        var e := Entry(a, h.forwarded.value, Some(k));
        ForwardLabelled(s, a, e);
        AcksLabelled(s.(lastTick := EntryTick(e), log := s.log + [e]), a, h.acks);
      } else {
        assert s.log + [] == s.log;
        AcksLabelled(s, a, h.acks);
      }
    }
  }

  lemma {:induction false} OnlyWorldStateLeft(messages: seq<ApplicationMessage>, book: Book)
    requires WorldStatesOnly(Batch(messages))
    ensures var o := Fold(messages, book).outgoing;
            o.lastTick == None && (o.worldState.Some? ==> o.worldState.value.payload.WorldState?)
  {
    if messages == [] {
    } else {
      var init := messages[..|messages| - 1];
      assert forall j :: 0 <= j < |init| ==> init[j] == messages[j];
      OnlyWorldStateLeft(init, book);
    }
  }

  lemma BatchLabelled(s: State, a: Address, messages: seq<ApplicationMessage>)
    requires Labelled(s, a) && WorldStatesOnly(Batch(messages))
    ensures Labelled(Step(AsIntended, s, Batch(messages)), a)
  {
    if !s.serverExited {
      OnlyWorldStateLeft(messages, s.book);
      var f := Fold(messages, s.book);
      assert RouteOption(f.book, f.outgoing.worldState) + [] == RouteOption(f.book, f.outgoing.worldState);
      assert AcksOf(RouteOption(f.book, f.outgoing.worldState), false) == [];
    }
  }

  lemma StepLabelled(s: State, a: Address, e: Event)
    requires Consistent(s) && Labelled(s, a) && !e.Stray? && WorldStatesOnly(e)
    ensures Labelled(Step(AsIntended, s, e), a)
  {
    match e
    case Spin(b) => SpinLabelled(s, a, b);
    case Receive(b, k) => ReceiveLabelled(s, a, b, k);
    case Arrive(k, alive) => ArriveLabelled(s, a, k, alive);
    case Batch(messages) => BatchLabelled(s, a, messages);
    case Input(_, _) =>
    case Abandon(_) =>
    case ServerAbandon =>
  }

  lemma {:induction false} RunLabelled(s: State, a: Address, events: seq<Event>)
    requires Consistent(s) && Labelled(s, a) && Quiet(events)
    ensures Labelled(Run(AsIntended, s, events), a)
    decreases events
  {
    if events == [] {
    } else {
      assert !events[0].Stray? && WorldStatesOnly(events[0]);
      StepLabelled(s, a, events[0]);
      StepOk(AsIntended, s, events[0]);
      RunLabelled(Step(AsIntended, s, events[0]), a, events[1..]);
    }
  }

  /** An entry carries the inputs numbered from its start tick to its last tick. */
  ghost predicate EntryOfInputs(e: Entry, inputs: seq<BitVal>) {
    && EntryTick(e) <= |inputs|
    && e.forward.window.inputs == inputs[e.forward.window.startTick..EntryTick(e)]
  }

  ghost predicate Ascending(log: seq<Entry>) {
    forall i, j :: 0 <= i < j < |log| ==> EntryTick(log[i]) < EntryTick(log[j])
  }

  lemma JoinSlices<T>(all: seq<T>, from: nat, mid: nat, to: nat)
    requires from <= mid <= to <= |all|
    ensures all[..mid] + all[from..to][mid - from..] == all[..to]
  {
  }

  lemma {:induction false} ReassembledIsPrefix(log: seq<Entry>, inputs: seq<BitVal>)
    requires GapFree(log) && Ascending(log)
    requires forall i :: 0 <= i < |log| ==> EntryOfInputs(log[i], inputs)
    ensures Delivered(log) <= |inputs| && Reassembled(log) == inputs[..Delivered(log)]
  {
    if log == [] {
    } else {
      var m := |log| - 1;
      var init, w := log[..m], log[m].forward.window;
      forall i | 0 <= i < m
        ensures init[i].forward.window.startTick <= Delivered(init[..i])
      {
        assert init[..i] == log[..i];
      }
      ReassembledIsPrefix(init, inputs);
      assert EntryOfInputs(log[m], inputs);
      JoinSlices(inputs, w.startTick, Delivered(init), w.LastTick());
    }
  }

  lemma {:induction false} NoInputSkipped(log: seq<Entry>, m: nat) returns (i: nat)
    requires GapFree(log) && m < Delivered(log)
    ensures i < |log| && log[i].forward.window.startTick <= m < EntryTick(log[i])
  {
    i := |log| - 1;
    if m < log[i].forward.window.startTick {
      var init := log[..i];
      assert forall j :: 0 <= j < |init| ==> init[..j] == log[..j];
      i := NoInputSkipped(init, m);
    }
  }

  lemma DeliveredPrefix(s: State, a: Address)
    requires Consistent(s) && Labelled(s, a)
    ensures Delivered(s.log) <= |s.nodes[a].Inputs()|
    ensures Reassembled(s.log) == s.nodes[a].Inputs()[..Delivered(s.log)]
    ensures forall m: nat :: m < Delivered(s.log) ==> Forwarded(s, a, m)
  {
    forall i | 0 <= i < |s.log|
      ensures EntryOfInputs(s.log[i], s.nodes[a].Inputs())
    {
      LabelledLog(s, a, i);
    }
    ReassembledIsPrefix(s.log, s.nodes[a].Inputs());
    forall m: nat | m < Delivered(s.log)
      ensures Forwarded(s, a, m)
    {
      var i := NoInputSkipped(s.log, m);
      assert EntryOk(s, s.log[i]);
      assert Contains(s, i, a, m);
    }
  }

  /**
   One client, the intended step, any loss, duplication and reordering: the forwarded sequences
   reassemble to exactly a prefix of the inputs, and every input retired is in that prefix.
   */
  lemma LockstepHolds(a: Address, events: seq<Event>)
    requires Quiet(events)
    ensures var s := Run(AsIntended, Init({a}), events);
            && a in s.nodes
            && s.nodes[a].Inputs() == Accepted(AsIntended, Init({a}), events, a)
            && Delivered(s.log) <= |s.nodes[a].Inputs()|
            && Reassembled(s.log) == s.nodes[a].Inputs()[..Delivered(s.log)]
            && s.nodes[a].dropped <= Delivered(s.log)
            && forall m: nat :: m < Delivered(s.log) ==> Forwarded(s, a, m)
  {
    InitOk({a}, EMPTY_BOOK);
    RunOk(AsIntended, Init({a}), events);
    RunLabelled(Init({a}), a, events);
    InputsConserved(AsIntended, Init({a}), events, a);
    DeliveredPrefix(Run(AsIntended, Init({a}), events), a);
  }

  lemma LabelledLog(s: State, a: Address, i: nat)
    requires Consistent(s) && Labelled(s, a) && i < |s.log|
    ensures EntryOfInputs(s.log[i], s.nodes[a].Inputs())
  {
    assert EntryOk(s, s.log[i]);
    SentCarriesInputs(s.nodes[a], s.net[s.log[i].packet.value]);
  }

  lemma SentCarriesInputs(n: Node, p: Sent)
    requires SentOk(n, p) && p.window.startTick == p.from
    ensures p.window.LastTick() <= |n.Inputs()| && p.window.inputs == n.Inputs()[p.from..p.window.LastTick()]
  {
    assert n.Inputs()[p.from..p.End()] == n.taken[p.from..p.End()];
  }
}

/**
 Runs that depart from lockstep: what the written retirement step does to a client whose
 network loses one datagram, what it does on a perfect network, and what a shared counter does
 to a second client.
 */
module Departures {
  import opened Wrappers
  import opened Messages
  import opened AddressBook
  import opened BitVector
  import opened Codec
  import opened Control
  import opened ClientServicer
  import opened ServerServicer
  import opened Network
  import opened EndToEnd
  import RunLength

  // ----- Inputs that are retired and can no longer be forwarded

  /** Input m of client a has left its buffer, was never forwarded, and every datagram that carries it is stale. */
  ghost predicate Lost(s: State, a: Address, m: nat) {
    && a in s.nodes && m < s.nodes[a].dropped && m < |s.nodes[a].Inputs()|
    && !Forwarded(s, a, m)
    && forall k :: 0 <= k < |s.net| && s.net[k].src == a && s.net[k].from <= m < s.net[k].End() ==>
         s.net[k].window.LastTick() <= s.lastTick
  }

  /** Ticks and buffer edges never move back, and a new log entry is newer than the counter. */
  lemma StepAdvances(policy: Policy, s: State, e: Event, a: Address)
    requires a in s.nodes
    ensures var t := Step(policy, s, e);
            && s.lastTick <= t.lastTick
            && a in t.nodes && s.nodes[a].dropped <= t.nodes[a].dropped
            && |s.nodes[a].Inputs()| <= |t.nodes[a].Inputs()|
            && (forall k :: |s.net| <= k < |t.net| && t.net[k].src == a ==> t.net[k].from == s.nodes[a].dropped)
            && (forall i :: |s.log| <= i < |t.log| ==> EntryTick(t.log[i]) > s.lastTick)
  {
  }

  lemma StepLost(policy: Policy, s: State, e: Event, a: Address, m: nat)
    requires Consistent(s) && Lost(s, a, m)
    ensures Lost(Step(policy, s, e), a, m)
  {
    var t := Step(policy, s, e);
    StepOk(policy, s, e);
    StepExtends(policy, s, e);
    StepAdvances(policy, s, e, a);
    forall i | 0 <= i < |t.log| && Contains(t, i, a, m)
      ensures false
    {
      assert EntryOk(t, t.log[i]);
      if i < |s.log| {
        assert EntryOk(s, s.log[i]);
        assert Contains(s, i, a, m);
      }
    }
  }

  /** A lost input stays lost in every continuation, whatever the network does. */
  lemma {:induction false} LostForGood(policy: Policy, s: State, events: seq<Event>, a: Address, m: nat)
    requires Consistent(s) && Lost(s, a, m)
    ensures Lost(Run(policy, s, events), a, m)
    decreases events
  {
    if events == [] {
    } else {
      StepLost(policy, s, events[0], a, m);
      StepOk(policy, s, events[0]);
      LostForGood(policy, Step(policy, s, events[0]), events[1..], a, m);
    }
  }

  // ----- Single steps of a run

  lemma RunFour(policy: Policy, s: State, es: seq<Event>)
    requires |es| == 4
    ensures Run(policy, s, es) == Step(policy, Step(policy, Step(policy, Step(policy, s, es[0]), es[1]), es[2]), es[3])
  {
    RunNext(policy, s, es, 0);
    RunNext(policy, Step(policy, s, es[0]), es, 1);
    RunNext(policy, Step(policy, Step(policy, s, es[0]), es[1]), es, 2);
    RunNext(policy, Step(policy, Step(policy, Step(policy, s, es[0]), es[1]), es[2]), es, 3);
    assert es[0..] == es && es[4..] == [];
  }

  lemma RunThree(policy: Policy, s: State, es: seq<Event>)
    requires |es| == 3
    ensures Run(policy, s, es) == Step(policy, Step(policy, Step(policy, s, es[0]), es[1]), es[2])
  {
    RunNext(policy, s, es, 0);
    RunNext(policy, Step(policy, s, es[0]), es, 1);
    RunNext(policy, Step(policy, Step(policy, s, es[0]), es[1]), es, 2);
    assert es[0..] == es && es[3..] == [];
  }

  lemma RunNext(policy: Policy, s: State, es: seq<Event>, i: nat)
    requires i < |es|
    ensures Run(policy, s, es[i..]) == Run(policy, Step(policy, s, es[i]), es[i + 1..])
  {
    assert es[i..][1..] == es[i + 1..];
  }

  ghost predicate EquallyLong(inputs: seq<BitVal>, n: nat) {
    forall i :: 0 <= i < |inputs| ==> inputs[i].Len() == n
  }

  lemma AttemptOnUniform(w: TickWindow, n: nat)
    requires w.inputs != [] && EquallyLong(w.inputs, n)
    ensures ToCompressedOf(w).Some?
    ensures AttemptOf(w) == if Oversized(w.inputs) then TooLarge else Packet(ToCompressedOf(w).value)
  {
    UniformElements(n, w.inputs);
    TooLargeIff(w);
  }

  lemma FewInputsFit(inputs: seq<BitVal>, n: nat)
    requires inputs != [] && EquallyLong(inputs, n) && |inputs| * (n + 1) <= MAX_PAYLOAD_BITS
    ensures !Oversized(inputs)
  {
    RunLength.RunsAtMost(Elements(inputs));
    ProductBound(n, |RunLength.RunStarts(Elements(inputs))|, |inputs|);
  }

  lemma ProductBound(n: nat, runs: nat, count: nat)
    requires runs <= count
    ensures count + n * runs <= count * (n + 1)
  {
    assert n * runs <= n * count;
  }

  /** Client a has queued more inputs. */
  function Queued(s: State, a: Address, xs: seq<BitVal>): State
    requires a in s.nodes
  {
    s.(nodes := s.nodes[a := s.nodes[a].(queue := s.nodes[a].queue + xs)])
  }

  /** Client a has emptied its queue into buffer w and sent it. */
  ghost function Sending(s: State, a: Address, w: TickWindow): State
    requires a in s.nodes && ToCompressedOf(w).Some?
  {
    var n := s.nodes[a];
    s.(nodes := s.nodes[a := Node([], w, false, n.taken + n.queue, n.dropped)],
       net := s.net + [Sent(a, ToCompressedOf(w).value, w, n.dropped)])
  }

  /** What a buffer of equally long inputs does at the next send. */
  lemma SpinStep(policy: Policy, s: State, a: Address, n: nat)
    requires a in s.nodes && !s.nodes[a].exited
    requires s.nodes[a].window.inputs + s.nodes[a].queue != []
    requires EquallyLong(s.nodes[a].window.inputs + s.nodes[a].queue, n)
    ensures var t := Step(policy, s, Spin(a));
            var w := PushedAll(s.nodes[a].window, s.nodes[a].queue);
            if Oversized(w.inputs) then a in t.nodes && t.nodes[a].exited
            else ToCompressedOf(w).Some? && t == Sending(s, a, w)
  {
    AttemptOnUniform(PushedAll(s.nodes[a].window, s.nodes[a].queue), n);
    assert s.net + [] == s.net;
  }

  /** A datagram that reaches a live server from a registered client is acknowledged, and forwarded if it is newer. */
  lemma ArriveStep(policy: Policy, s: State, k: nat, user: Username)
    requires Consistent(s) && !s.serverExited && k < |s.net| && s.book.Has(s.net[k].src, user)
    ensures var p, t := s.net[k], Step(policy, s, Arrive(k, true));
            if p.window.LastTick() > s.lastTick then
              t == s.(lastTick := p.window.LastTick(),
                      log := s.log + [Entry(p.src, Forward(user, p.window), Some(k))],
                      acks := s.acks + [Ack(p.src, p.window.LastTick(), true)])
            else
              t == s.(acks := s.acks + [Ack(p.src, s.lastTick, true)])
  {
    var p := s.net[k];
    assert SentOk(s.nodes[p.src], p);
    AckGoesBack(s.book, s.lastTick, true, p.src, p.content);
    var tick := if p.window.LastTick() > s.lastTick then p.window.LastTick() else s.lastTick;
    assert AcksOf([Datagram(p.src, LastTickReceived(tick))], true) == [Ack(p.src, tick, true)];
    assert s.log + [] == s.log;
  }

  // ----- A perfect network

  function QueueEvents(a: Address, xs: seq<BitVal>): seq<Event> {
    if xs == [] then [] else [Input(a, xs[0])] + QueueEvents(a, xs[1..])
  }

  /** The inputs xs are queued, then sent, received and acknowledged with nothing lost; this is round k, from 0. */
  function Round(a: Address, xs: seq<BitVal>, k: nat): seq<Event> {
    QueueEvents(a, xs) + [Spin(a), Arrive(k, true), Receive(a, k)]
  }

  function Rounds(a: Address, rounds: seq<seq<BitVal>>): seq<Event> {
    if rounds == [] then [] else Rounds(a, rounds[..|rounds| - 1]) + Round(a, rounds[|rounds| - 1], |rounds| - 1)
  }

  function Flatten(rounds: seq<seq<BitVal>>): seq<BitVal> {
    if rounds == [] then [] else Flatten(rounds[..|rounds| - 1]) + rounds[|rounds| - 1]
  }

  /** Every round has inputs, all n bits long. */
  ghost predicate Regular(rounds: seq<seq<BitVal>>, n: nat) {
    forall i :: 0 <= i < |rounds| ==> rounds[i] != [] && EquallyLong(rounds[i], n)
  }

  lemma {:induction false} FlattenRegular(rounds: seq<seq<BitVal>>, n: nat)
    requires Regular(rounds, n)
    ensures EquallyLong(Flatten(rounds), n) && (rounds != [] ==> Flatten(rounds) != [])
  {
    if rounds == [] {
    } else {
      FlattenRegular(rounds[..|rounds| - 1], n);
    }
  }

  /** What a client has in its buffer when it sends the latest round, after the inputs `sent` before it. */
  function AtSend(policy: Policy, sent: seq<BitVal>, xs: seq<BitVal>): seq<BitVal> {
    if policy == AsWritten then sent + xs else xs
  }

  /** At the latest round or an earlier one the buffer to send was too large. */
  ghost predicate SomeTooMuch(policy: Policy, rounds: seq<seq<BitVal>>)
    requires forall i :: 0 <= i < |rounds| ==> rounds[i] != []
  {
    rounds != [] &&
    var init, last := rounds[..|rounds| - 1], rounds[|rounds| - 1];
    SomeTooMuch(policy, init) || Oversized(AtSend(policy, Flatten(init), last))
  }

  /** The state after `count` rounds that sent the inputs xs: everything sent so far is acknowledged. */
  ghost predicate Settled(policy: Policy, s: State, a: Address, user: Username, xs: seq<BitVal>, count: nat) {
    && s.nodes.Keys == {a} && s.book.Has(a, user) && !s.serverExited
    && |s.net| == |s.acks| == count
    && var n := s.nodes[a];
    && !n.exited && n.queue == [] && n.taken == xs && s.lastTick <= n.window.LastTick()
    && n.window.inputs == (if policy == AsWritten then xs else [])
    && n.dropped == (if policy == AsWritten then 0 else |xs|)
  }

  lemma {:induction false} QueueAll(policy: Policy, s: State, a: Address, xs: seq<BitVal>)
    requires a in s.nodes && !s.nodes[a].exited
    ensures Run(policy, s, QueueEvents(a, xs)) == Queued(s, a, xs)
    decreases xs
  {
    if xs == [] {
      assert s.nodes[a].queue + [] == s.nodes[a].queue;
    } else {
      assert QueueEvents(a, xs)[1..] == QueueEvents(a, xs[1..]);
      QueueAll(policy, Queued(s, a, [xs[0]]), a, xs[1..]);
      QueuedTwice(s, a, [xs[0]], xs[1..]);
      assert [xs[0]] + xs[1..] == xs;
    }
  }

  lemma QueuedTwice(s: State, a: Address, xs: seq<BitVal>, ys: seq<BitVal>)
    requires a in s.nodes
    ensures Queued(Queued(s, a, xs), a, ys) == Queued(s, a, xs + ys)
  {
    assert s.nodes[a].queue + xs + ys == s.nodes[a].queue + (xs + ys);
  }

  lemma QueuedOk(s: State, a: Address, xs: seq<BitVal>)
    requires Consistent(s) && a in s.nodes
    ensures Consistent(Queued(s, a, xs))
  {
    ReplaceNodeOk(s, a, s.nodes[a].(queue := s.nodes[a].queue + xs));
  }

  /** The client's half of a round. */
  lemma HalfRound(policy: Policy, s: State, s2: State, a: Address, xs: seq<BitVal>, n: nat)
    requires a in s.nodes && !s.nodes[a].exited && s.nodes[a].queue == [] && xs != []
    requires Consistent(s) && s2 == Step(policy, Queued(s, a, xs), Spin(a))
    requires EquallyLong(s.nodes[a].window.inputs + xs, n)
    ensures Consistent(s2)
    ensures var w := PushedAll(s.nodes[a].window, xs);
            if Oversized(w.inputs) then a in s2.nodes && s2.nodes[a].exited
            else ToCompressedOf(w).Some? && s2 == Sending(Queued(s, a, xs), a, w)
  {
    assert [] + xs == xs;
    SpinStep(policy, Queued(s, a, xs), a, n);
    QueuedOk(s, a, xs);
    StepOk(policy, Queued(s, a, xs), Spin(a));
  }

  /** The server's half of a round, and the acknowledgement. */
  lemma DeliverAndAck(policy: Policy, s: State, a: Address, user: Username, k: nat)
    requires Consistent(s) && !s.serverExited && s.book.Has(a, user)
    requires k < |s.net| && k == |s.acks| && s.net[k].src == a && s.net[k].window.LastTick() > s.lastTick
    requires a in s.nodes && !s.nodes[a].exited
    ensures Step(policy, Step(policy, s, Arrive(k, true)), Receive(a, k)) == Acknowledged(policy, s, a, user, k)
  {
    ArriveStep(policy, s, k, user);
  }

  /** Datagram k was forwarded, acknowledged, and the acknowledgement received. */
  function Acknowledged(policy: Policy, s: State, a: Address, user: Username, k: nat): State
    requires k < |s.net| && a in s.nodes
  {
    var w := s.net[k].window;
    s.(nodes := s.nodes[a := RetireNode(policy, s.nodes[a], w.LastTick())],
       lastTick := w.LastTick(),
       log := s.log + [Entry(a, Forward(user, w), Some(k))],
       acks := s.acks + [Ack(a, w.LastTick(), true)])
  }

  /** Acknowledging a whole buffer: as written it all stays, as intended it all goes. */
  lemma RetireAll(policy: Policy, node: Node)
    ensures var r := RetireNode(policy, node, node.window.LastTick());
            && r.window.inputs == (if policy == AsWritten then node.window.inputs else [])
            && r.dropped == node.dropped + (if policy == AsWritten then 0 else |node.window.inputs|)
            && r.window.LastTick() >= node.window.LastTick()
            && r == node.(window := r.window, dropped := r.dropped)
  {
  }

  lemma RunRound(policy: Policy, s: State, a: Address, xs: seq<BitVal>, k: nat)
    requires a in s.nodes && !s.nodes[a].exited
    ensures var s2 := Step(policy, Queued(s, a, xs), Spin(a));
            Run(policy, s, Round(a, xs, k)) == Step(policy, Step(policy, s2, Arrive(k, true)), Receive(a, k))
  {
    QueueAll(policy, s, a, xs);
    RunConcat(policy, s, QueueEvents(a, xs), [Spin(a), Arrive(k, true), Receive(a, k)]);
    RunThree(policy, Queued(s, a, xs), [Spin(a), Arrive(k, true), Receive(a, k)]);
  }

  lemma RoundStep(policy: Policy, s: State, a: Address, user: Username,
                  sent: seq<BitVal>, xs: seq<BitVal>, k: nat, n: nat)
    requires Consistent(s) && Settled(policy, s, a, user, sent, k)
    requires xs != [] && EquallyLong(sent, n) && EquallyLong(xs, n)
    ensures var t := Run(policy, s, Round(a, xs, k));
            a in t.nodes &&
            if Oversized(AtSend(policy, sent, xs)) then t.nodes[a].exited
            else Settled(policy, t, a, user, sent + xs, k + 1)
  {
    var w := PushedAll(s.nodes[a].window, xs);
    var s2 := Step(policy, Queued(s, a, xs), Spin(a));
    assert [] + xs == xs;
    assert w.inputs == AtSend(policy, sent, xs);
    HalfRound(policy, s, s2, a, xs, n);
    RunRound(policy, s, a, xs, k);
    FinishRound(policy, s, s2, a, user, sent, xs, k);
  }

  lemma FinishRound(policy: Policy, s: State, s2: State, a: Address, user: Username,
                    sent: seq<BitVal>, xs: seq<BitVal>, k: nat)
    requires Settled(policy, s, a, user, sent, k) && Consistent(s2) && xs != []
    requires var w := PushedAll(s.nodes[a].window, xs);
             if Oversized(w.inputs) then a in s2.nodes && s2.nodes[a].exited
             else ToCompressedOf(w).Some? && s2 == Sending(Queued(s, a, xs), a, w)
    ensures var t := Step(policy, Step(policy, s2, Arrive(k, true)), Receive(a, k));
            a in t.nodes &&
            if Oversized(PushedAll(s.nodes[a].window, xs).inputs) then t.nodes[a].exited
            else Settled(policy, t, a, user, sent + xs, k + 1)
  {
    if Oversized(PushedAll(s.nodes[a].window, xs).inputs) {
      StepStaysExited(policy, s2, Arrive(k, true), a);
      StepStaysExited(policy, Step(policy, s2, Arrive(k, true)), Receive(a, k), a);
    } else {
      assert [] + xs == xs;
      DeliverAndAck(policy, s2, a, user, k);
      SettleRound(policy, s, s2, a, user, sent, xs, k);
    }
  }

  lemma SettleRound(policy: Policy, s: State, s2: State, a: Address, user: Username,
                    sent: seq<BitVal>, xs: seq<BitVal>, k: nat)
    requires Settled(policy, s, a, user, sent, k)
    requires var w := PushedAll(s.nodes[a].window, xs);
             ToCompressedOf(w).Some? && s2 == Sending(Queued(s, a, xs), a, w)
    ensures Settled(policy, Acknowledged(policy, s2, a, user, k), a, user, sent + xs, k + 1)
  {
    assert [] + xs == xs;
    RetireAll(policy, s2.nodes[a]);
  }

  lemma StepStaysExited(policy: Policy, s: State, e: Event, a: Address)
    requires a in s.nodes && s.nodes[a].exited
    ensures a in Step(policy, s, e).nodes && Step(policy, s, e).nodes[a].exited
  {
  }

  lemma {:induction false} ExitIsFinal(policy: Policy, s: State, events: seq<Event>, a: Address)
    requires a in s.nodes && s.nodes[a].exited
    ensures a in Run(policy, s, events).nodes && Run(policy, s, events).nodes[a].exited
    decreases events
  {
    if events == [] {
    } else {
      StepStaysExited(policy, s, events[0], a);
      ExitIsFinal(policy, Step(policy, s, events[0]), events[1..], a);
    }
  }

  ghost function AfterRounds(policy: Policy, a: Address, user: Username, rounds: seq<seq<BitVal>>): State {
    Run(policy, Run(policy, Init({a}), [Batch([NewClient(user, a)])]), Rounds(a, rounds))
  }

  lemma Registered(policy: Policy, a: Address, user: Username)
    ensures var s := Run(policy, Init({a}), [Batch([NewClient(user, a)])]);
            && Consistent(s) && Settled(policy, s, a, user, [], 0)
            && s.nodes[a].window == EMPTY && s.lastTick == 0 && s.log == []
  {
    var e := Batch([NewClient(user, a)]);
    InitOk({a}, EMPTY_BOOK);
    StepOk(policy, Init({a}), e);
    assert [e][1..] == [];
    var messages := [NewClient(user, a)];
    assert messages[..0] == [];
    assert Fold(messages, EMPTY_BOOK).outgoing == NOTHING;
    assert Step(policy, Init({a}), e).acks == [];
  }

  lemma AfterRoundsSnoc(policy: Policy, a: Address, user: Username, rounds: seq<seq<BitVal>>)
    requires rounds != []
    ensures AfterRounds(policy, a, user, rounds)
         == Run(policy, AfterRounds(policy, a, user, rounds[..|rounds| - 1]),
                Round(a, rounds[|rounds| - 1], |rounds| - 1))
  {
    var init, last := rounds[..|rounds| - 1], rounds[|rounds| - 1];
    RunConcat(policy, Run(policy, Init({a}), [Batch([NewClient(user, a)])]), Rounds(a, init), Round(a, last, |init|));
  }

  /**
   Rounds of any number of inputs, each round sent, received and acknowledged before the next:
   the client exits exactly when some buffer it has to send is too large.  As written no input
   ever leaves the buffer; as intended each does once acknowledged.
   */
  lemma {:induction false} PerfectNetwork(policy: Policy, a: Address, user: Username,
                                          rounds: seq<seq<BitVal>>, n: nat)
    requires Regular(rounds, n)
    ensures var s := AfterRounds(policy, a, user, rounds);
            && a in s.nodes
            && (s.nodes[a].exited <==> SomeTooMuch(policy, rounds))
            && (!s.nodes[a].exited ==> Settled(policy, s, a, user, Flatten(rounds), |rounds|))
            && Consistent(s)
  {
    if rounds == [] {
      Registered(policy, a, user);
    } else {
      var init, last := rounds[..|rounds| - 1], rounds[|rounds| - 1];
      PerfectNetwork(policy, a, user, init, n);
      FlattenRegular(init, n);
      AfterRoundsSnoc(policy, a, user, rounds);
      var before := AfterRounds(policy, a, user, init);
      if before.nodes[a].exited {
        ExitIsFinal(policy, before, Round(a, last, |init|), a);
      } else {
        RoundStep(policy, before, a, user, Flatten(init), last, |init|, n);
      }
      RunOk(policy, before, Round(a, last, |init|));
    }
  }

  /**
   On such a network the written step ends in an exit once more than 11744 inputs were sent; the
   intended one never does while each round on its own fits a packet.
   */
  lemma WrittenExitsIntendedDoesNot(a: Address, user: Username, rounds: seq<seq<BitVal>>, n: nat)
    requires Regular(rounds, n)
    ensures |Flatten(rounds)| > MAX_PAYLOAD_BITS ==>
              var s := AfterRounds(AsWritten, a, user, rounds);
              a in s.nodes && s.nodes[a].exited
    ensures (forall i :: 0 <= i < |rounds| ==> !Oversized(rounds[i])) ==>
              var s := AfterRounds(AsIntended, a, user, rounds);
              a in s.nodes && !s.nodes[a].exited && s.nodes[a].window.inputs == []
  {
    PerfectNetwork(AsWritten, a, user, rounds, n);
    PerfectNetwork(AsIntended, a, user, rounds, n);
    if |Flatten(rounds)| > MAX_PAYLOAD_BITS {
      ManyInputsOversized(rounds);
    }
    if forall i :: 0 <= i < |rounds| ==> !Oversized(rounds[i]) {
      RoundsFit(rounds);
    }
  }

  lemma {:induction false} ManyInputsOversized(rounds: seq<seq<BitVal>>)
    requires forall i :: 0 <= i < |rounds| ==> rounds[i] != []
    requires |Flatten(rounds)| > MAX_PAYLOAD_BITS
    ensures SomeTooMuch(AsWritten, rounds)
  {
    var init, last := rounds[..|rounds| - 1], rounds[|rounds| - 1];
    assert AtSend(AsWritten, Flatten(init), last) == Flatten(rounds);
    assert Oversized(Flatten(rounds));
  }

  lemma {:induction false} RoundsFit(rounds: seq<seq<BitVal>>)
    requires forall i :: 0 <= i < |rounds| ==> rounds[i] != []
    requires forall i :: 0 <= i < |rounds| ==> !Oversized(rounds[i])
    ensures !SomeTooMuch(AsIntended, rounds)
  {
    if rounds == [] {
    } else {
      RoundsFit(rounds[..|rounds| - 1]);
    }
  }

  // ----- The written step loses inputs

  /**
   Four inputs; the first is acknowledged late, after the other three were queued, and the
   datagram that carried all four is lost.
   */
  function LateAck(a: Address, user: Username, x: seq<BitVal>): seq<Event>
    requires |x| == 4
  {
    [Batch([NewClient(user, a)]), Input(a, x[0]), Spin(a), Arrive(0, true)]
    + [Input(a, x[1]), Input(a, x[2]), Input(a, x[3]), Spin(a)]
    + [Receive(a, 0), Spin(a), Arrive(2, true)]
  }

  /** As written, acknowledging the first of four inputs retires the second and third, which are never forwarded. */
  lemma WrittenStepLosesInputs(a: Address, user: Username, x: seq<BitVal>, n: nat, more: seq<Event>)
    requires |x| == 4 && EquallyLong(x, n) && 4 * (n + 1) <= MAX_PAYLOAD_BITS
    ensures var s := Run(AsWritten, Init({a}), LateAck(a, user, x));
            a in s.nodes && s.nodes[a].Inputs() == x && Forwarded(s, a, 0) && Forwarded(s, a, 3)
    ensures var s := Run(AsWritten, Init({a}), LateAck(a, user, x) + more);
            Lost(s, a, 1) && Lost(s, a, 2)
  {
    var es := LateAck(a, user, x);
    var s0 := Init({a});
    InitOk({a}, EMPTY_BOOK);
    RunOk(AsWritten, s0, es);
    LateAckEnds(a, user, x, n);
    RunConcat(AsWritten, s0, es, more);
    LostForGood(AsWritten, Run(AsWritten, s0, es), more, a, 1);
    LostForGood(AsWritten, Run(AsWritten, s0, es), more, a, 2);
  }

  lemma LateAckEnds(a: Address, user: Username, x: seq<BitVal>, n: nat)
    requires |x| == 4 && EquallyLong(x, n) && 4 * (n + 1) <= MAX_PAYLOAD_BITS
    ensures Ended(Run(AsWritten, Init({a}), LateAck(a, user, x)), a, x)
  {
    var es := LateAck(a, user, x);
    var first, second, third := es[..4], es[4..8], es[8..];
    var s0 := Init({a});
    var s1 := Run(AsWritten, s0, first);
    var s2 := Run(AsWritten, s1, second);
    assert es == first + (second + third);
    RunConcat(AsWritten, s0, first, second + third);
    RunConcat(AsWritten, s1, second, third);
    InitOk({a}, EMPTY_BOOK);
    RunOk(AsWritten, s0, first);
    RunOk(AsWritten, s1, second);
    FirstAcked(a, user, x, n);
    QueueThree(s1, a, x, n);
    RetireThree(s2, a, user, x, n);
  }

  ghost predicate Ended(s: State, a: Address, x: seq<BitVal>) {
    && Lost(s, a, 1) && Lost(s, a, 2) && s.nodes[a].Inputs() == x
    && Forwarded(s, a, 0) && Forwarded(s, a, 3)
  }

  /** The first input was forwarded and its acknowledgement is on the way. */
  ghost predicate FirstForwarded(s: State, a: Address, user: Username) {
    && s.book.Has(a, user) && !s.serverExited && s.lastTick == 1
    && s.acks == [Ack(a, 1, true)]
    && |s.log| == 1 && s.log[0].src == a && s.log[0].packet == Some(0)
    && |s.net| >= 1 && s.net[0].src == a && s.net[0].from == 0 && s.net[0].End() == 1
  }

  lemma FirstAcked(a: Address, user: Username, x: seq<BitVal>, n: nat)
    requires |x| == 4 && EquallyLong(x, n) && 4 * (n + 1) <= MAX_PAYLOAD_BITS
    ensures var s := Run(AsWritten, Init({a}), LateAck(a, user, x)[..4]);
            && FirstForwarded(s, a, user) && |s.net| == 1
            && a in s.nodes && s.nodes[a] == Node([], TickWindow(0, [x[0]]), false, [x[0]], 0)
  {
    var es := LateAck(a, user, x)[..4];
    var s0 := Init({a});
    RunFour(AsWritten, s0, es);
    Registered(AsWritten, a, user);
    RunNext(AsWritten, s0, [es[0]], 0);
    assert [es[0]][0..] == [es[0]] && [es[0]][1..] == [];
    SendFirst(Step(AsWritten, s0, es[0]), a, user, x[0], n);
  }

  lemma SendFirst(s: State, a: Address, user: Username, x: BitVal, n: nat)
    requires Consistent(s) && Settled(AsWritten, s, a, user, [], 0) && x.Len() == n && n + 1 <= MAX_PAYLOAD_BITS
    requires s.nodes[a].window == EMPTY && s.lastTick == 0 && s.log == []
    ensures var t := Step(AsWritten, Step(AsWritten, Step(AsWritten, s, Input(a, x)), Spin(a)), Arrive(0, true));
            && FirstForwarded(t, a, user) && |t.net| == 1
            && a in t.nodes && t.nodes[a] == Node([], TickWindow(0, [x]), false, [x], 0)
  {
    var s2 := Step(AsWritten, Step(AsWritten, s, Input(a, x)), Spin(a));
    assert [] + [x] == [x];
    FewInputsFit([x], n);
    HalfRound(AsWritten, s, s2, a, [x], n);
    ArriveStep(AsWritten, s2, 0, user);
  }

  lemma QueueThree(s: State, a: Address, x: seq<BitVal>, n: nat)
    requires |x| == 4 && EquallyLong(x, n) && 4 * (n + 1) <= MAX_PAYLOAD_BITS
    requires a in s.nodes && s.nodes[a] == Node([], TickWindow(0, [x[0]]), false, [x[0]], 0)
    ensures var t := Run(AsWritten, s, [Input(a, x[1]), Input(a, x[2]), Input(a, x[3]), Spin(a)]);
            ToCompressedOf(TickWindow(0, x)).Some? &&
            t == Sending(Queued(s, a, x[1..]), a, TickWindow(0, x)) && t.nodes[a].taken == x
  {
    RunFour(AsWritten, s, [Input(a, x[1]), Input(a, x[2]), Input(a, x[3]), Spin(a)]);
    ThreeInputs(s, a, x[1], x[2], x[3]);
    assert [x[1], x[2], x[3]] == x[1..] && [x[0]] + x[1..] == x && [] + x[1..] == x[1..];
    FewInputsFit(x, n);
    SpinStep(AsWritten, Queued(s, a, x[1..]), a, n);
  }

  lemma ThreeInputs(s: State, a: Address, x: BitVal, y: BitVal, z: BitVal)
    requires a in s.nodes && !s.nodes[a].exited && s.nodes[a].queue == []
    ensures Step(AsWritten, Step(AsWritten, Step(AsWritten, s, Input(a, x)), Input(a, y)), Input(a, z))
         == Queued(s, a, [x, y, z])
  {
    QueuedTwice(s, a, [x], [y]);
    QueuedTwice(s, a, [x] + [y], [z]);
    assert [x] + [y] + [z] == [x, y, z];
  }

  lemma RetireThree(s: State, a: Address, user: Username, x: seq<BitVal>, n: nat)
    requires Consistent(s) && |x| == 4 && EquallyLong(x, n) && 4 * (n + 1) <= MAX_PAYLOAD_BITS
    requires FirstForwarded(s, a, user) && |s.net| == 2 && s.net[1].window == TickWindow(0, x)
    requires a in s.nodes && s.nodes[a] == Node([], TickWindow(0, x), false, x, 0)
    ensures Ended(Run(AsWritten, s, [Receive(a, 0), Spin(a), Arrive(2, true)]), a, x)
  {
    var es := [Receive(a, 0), Spin(a), Arrive(2, true)];
    RunThree(AsWritten, s, es);
    var s1 := Step(AsWritten, s, es[0]);
    var s2 := Step(AsWritten, s1, es[1]);
    StepOk(AsWritten, s, es[0]);
    StepOk(AsWritten, s1, es[1]);
    assert x[3..] == [x[3]];
    SendRest(s1, a, x, n);
    LastForwarded(s2, a, user, x);
  }

  lemma SendRest(s: State, a: Address, x: seq<BitVal>, n: nat)
    requires |x| == 4 && EquallyLong(x, n) && 4 * (n + 1) <= MAX_PAYLOAD_BITS
    requires a in s.nodes && s.nodes[a] == Node([], TickWindow(5, [x[3]]), false, x, 3)
    ensures var w := TickWindow(5, [x[3]]);
            ToCompressedOf(w).Some? &&
            Step(AsWritten, s, Spin(a)) == Sending(s, a, w) && Sending(s, a, w).nodes[a].taken == x
  {
    FewInputsFit([x[3]], n);
    assert [x[3]] + [] == [x[3]] && x + [] == x;
    SpinStep(AsWritten, s, a, n);
  }

  lemma LastForwarded(s: State, a: Address, user: Username, x: seq<BitVal>)
    requires Consistent(s) && |x| == 4 && FirstForwarded(s, a, user)
    requires |s.net| == 3 && s.net[1].window == TickWindow(0, x)
    requires s.net[2].src == a && s.net[2].window == TickWindow(5, [x[3]]) && s.net[2].from == 3
    requires a in s.nodes && s.nodes[a] == Node([], TickWindow(5, [x[3]]), false, x, 3)
    ensures Ended(Step(AsWritten, s, Arrive(2, true)), a, x)
  {
    ArriveStep(AsWritten, s, 2, user);
    EndedBy(Step(AsWritten, s, Arrive(2, true)), a, x);
  }

  lemma EndedBy(t: State, a: Address, x: seq<BitVal>)
    requires |x| == 4 && t.lastTick == 6 && |t.net| == 3 && |t.log| == 2
    requires t.net[0].from == 0 && t.net[0].End() == 1 && t.net[1].window == TickWindow(0, x)
    requires t.net[2].from == 3 && t.net[2].End() == 4
    requires t.log[0].src == a && t.log[0].packet == Some(0) && t.log[1].src == a && t.log[1].packet == Some(2)
    requires a in t.nodes && t.nodes[a].taken == x && t.nodes[a].queue == [] && t.nodes[a].dropped == 3
    ensures Ended(t, a, x)
  {
    assert x + [] == x;
    assert Contains(t, 0, a, 0) && Contains(t, 1, a, 3);
  }

  // ----- A shared counter

  /** One client sends two inputs in one datagram, another then sends its first; all arrive and are acknowledged. */
  function TwoClients(a: Address, u: Username, b: Address, v: Username, x: BitVal, y: BitVal, z: BitVal): seq<Event> {
    [Batch([NewClient(u, a), NewClient(v, b)]), Input(a, x), Input(a, y), Spin(a)]
    + [Arrive(0, true), Input(b, z), Spin(b), Arrive(1, true)]
    + [Receive(b, 1)]
  }

  /**
   Even with the intended step the guarantee is one client's only: the other client's larger
   tick makes its input look old, and the acknowledgement of that tick retires it unforwarded.
   */
  lemma SharedCounterLosesInput(a: Address, u: Username, b: Address, v: Username,
                                x: BitVal, y: BitVal, z: BitVal, n: nat, more: seq<Event>)
    requires a != b && u != v && EquallyLong([x, y, z], n) && 2 * (n + 1) <= MAX_PAYLOAD_BITS
    ensures Lost(Run(AsIntended, Init({a, b}), TwoClients(a, u, b, v, x, y, z) + more), b, 0)
  {
    var es := TwoClients(a, u, b, v, x, y, z);
    var first, second, third := es[..4], es[4..8], es[8..];
    var s0 := Init({a, b});
    var s1 := Run(AsIntended, s0, first);
    var s2 := Run(AsIntended, s1, second);
    InitOk({a, b}, EMPTY_BOOK);
    RunOk(AsIntended, s0, first);
    RunOk(AsIntended, s1, second);
    RunOk(AsIntended, s2, third);
    assert es == first + (second + third);
    RunConcat(AsIntended, s0, first, second + third);
    RunConcat(AsIntended, s1, second, third);
    RunConcat(AsIntended, s0, es, more);
    assert x.Len() == n && y.Len() == n && z.Len() == n by {
      assert [x, y, z][0] == x && [x, y, z][1] == y && [x, y, z][2] == z;
    }
    OneSends(a, u, b, v, x, y, n);
    RunFour(AsIntended, s0, first);
    OtherOvertaken(s1, a, u, b, v, z, n);
    RunFour(AsIntended, s1, second);
    RunNext(AsIntended, s2, third, 0);
    assert third[0..] == third && third[1..] == [];
    OtherRetires(s2, b, z);
    LostForGood(AsIntended, Run(AsIntended, s0, es), more, b, 0);
  }

  /** Client a has sent a datagram of two inputs and client b nothing. */
  ghost predicate OneHasSent(s: State, a: Address, u: Username, b: Address, v: Username) {
    && s.book.Has(a, u) && s.book.Has(b, v) && !s.serverExited && s.lastTick == 0
    && s.acks == [] && s.log == []
    && |s.net| == 1 && s.net[0].src == a && s.net[0].window.LastTick() == 2
    && b in s.nodes && s.nodes[b] == Node([], EMPTY, false, [], 0)
  }

  lemma OneSends(a: Address, u: Username, b: Address, v: Username, x: BitVal, y: BitVal, n: nat)
    requires a != b && u != v && x.Len() == n && y.Len() == n && 2 * (n + 1) <= MAX_PAYLOAD_BITS
    ensures var s1 := Step(AsIntended, Init({a, b}), Batch([NewClient(u, a), NewClient(v, b)]));
            var s3 := Step(AsIntended, Step(AsIntended, s1, Input(a, x)), Input(a, y));
            OneHasSent(Step(AsIntended, s3, Spin(a)), a, u, b, v)
  {
    BothRegistered(a, u, b, v);
    var s1 := Step(AsIntended, Init({a, b}), Batch([NewClient(u, a), NewClient(v, b)]));
    var s3 := Step(AsIntended, Step(AsIntended, s1, Input(a, x)), Input(a, y));
    assert [] + [x] + [y] == [x, y] && [] + [x, y] == [x, y];
    assert s3.nodes[a] == Node([x, y], EMPTY, false, [], 0);
    FewInputsFit([x, y], n);
    SpinStep(AsIntended, s3, a, n);
  }

  lemma BothRegistered(a: Address, u: Username, b: Address, v: Username)
    requires a != b && u != v
    ensures Step(AsIntended, Init({a, b}), Batch([NewClient(u, a), NewClient(v, b)]))
         == Init({a, b}).(book := EMPTY_BOOK.Insert(a, u).Insert(b, v))
  {
    var messages := [NewClient(u, a), NewClient(v, b)];
    assert messages[..1] == [NewClient(u, a)] && messages[..1][..0] == [];
    assert Fold(messages[..1], EMPTY_BOOK) == Folded(NOTHING, EMPTY_BOOK.Insert(a, u));
    assert Fold(messages, EMPTY_BOOK) == Folded(NOTHING, EMPTY_BOOK.Insert(a, u).Insert(b, v));
    assert Routes(Fold(messages, EMPTY_BOOK)) == [];
    assert Init({a, b}).acks + [] == Init({a, b}).acks;
  }

  /** Client b's datagram arrived behind a's counter: its input is acknowledged past its tick and not forwarded. */
  ghost predicate Overtaken(s: State, b: Address, z: BitVal) {
    && b in s.nodes && s.nodes[b] == Node([], TickWindow(0, [z]), false, [z], 0)
    && s.lastTick == 2 && |s.acks| == 2 && s.acks[1] == Ack(b, 2, true)
    && |s.log| == 1 && s.log[0].src != b
    && |s.net| == 2 && s.net[0].src != b && s.net[1].window.LastTick() == 1
  }

  lemma OtherOvertaken(s: State, a: Address, u: Username, b: Address, v: Username, z: BitVal, n: nat)
    requires Consistent(s) && a != b && OneHasSent(s, a, u, b, v) && z.Len() == n && n + 1 <= MAX_PAYLOAD_BITS
    ensures var s1 := Step(AsIntended, s, Arrive(0, true));
            var s3 := Step(AsIntended, Step(AsIntended, s1, Input(b, z)), Spin(b));
            Overtaken(Step(AsIntended, s3, Arrive(1, true)), b, z)
  {
    ArriveStep(AsIntended, s, 0, u);
    StepOk(AsIntended, s, Arrive(0, true));
    SendBehind(Step(AsIntended, s, Arrive(0, true)), b, v, z, n);
  }

  lemma SendBehind(s: State, b: Address, v: Username, z: BitVal, n: nat)
    requires Consistent(s) && z.Len() == n && n + 1 <= MAX_PAYLOAD_BITS
    requires s.book.Has(b, v) && !s.serverExited && s.lastTick == 2
    requires |s.acks| == 1 && |s.log| == 1 && s.log[0].src != b && |s.net| == 1 && s.net[0].src != b
    requires b in s.nodes && s.nodes[b] == Node([], EMPTY, false, [], 0)
    ensures var s2 := Step(AsIntended, Step(AsIntended, s, Input(b, z)), Spin(b));
            Overtaken(Step(AsIntended, s2, Arrive(1, true)), b, z)
  {
    var s2 := Step(AsIntended, Step(AsIntended, s, Input(b, z)), Spin(b));
    assert [] + [z] == [z];
    FewInputsFit([z], n);
    HalfRound(AsIntended, s, s2, b, [z], n);
    ArriveStep(AsIntended, s2, 1, v);
  }

  lemma OtherRetires(s: State, b: Address, z: BitVal)
    requires Overtaken(s, b, z)
    ensures Lost(Step(AsIntended, s, Receive(b, 1)), b, 0)
  {
    assert Step(AsIntended, s, Receive(b, 1)).nodes[b].dropped == 1;
  }
}

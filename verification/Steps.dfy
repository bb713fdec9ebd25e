/** What each step of the network does, without the functions that compute it, and when a servicer exits. */
module Steps {
  import opened Wrappers
  import opened Messages
  import opened AddressBook
  import opened Codec
  import opened Control
  import opened ClientServicer
  import opened ServerServicer
  import opened Network

  // ----- The client

  /** A send adds one datagram that carries the buffer when the buffer can be sent, and nothing otherwise. */
  lemma SpinEffect(policy: Policy, s: State, a: Address)
    requires a in s.nodes && !s.nodes[a].exited
    ensures var n, t := s.nodes[a], Step(policy, s, Spin(a));
            var w := TickWindow(n.window.startTick, n.window.inputs + n.queue);
            && t == s.(nodes := s.nodes[a := Node([], w, MustExit(w.inputs), n.taken + n.queue, n.dropped)],
                       net := t.net)
            && (!CanSend(w.inputs) ==> t.net == s.net)
            && (CanSend(w.inputs) ==> exists c :: Carries(c, w) && t.net == s.net + [Sent(a, c, w, n.dropped)])
  {
    var w := PushedAll(s.nodes[a].window, s.nodes[a].queue);
    AttemptCases(w);
    assert s.net + [] == s.net;
    if AttemptOf(w).Packet? {
      assert Carries(AttemptOf(w).content, w);
    }
  }

  /**
   A client's servicer stops at a step exactly when its application or socket ends it, or when it
   has to send a buffer of equally long inputs that is too large.
   */
  lemma ClientExitsIff(policy: Policy, s: State, e: Event, a: Address)
    requires a in s.nodes
    ensures a in Step(policy, s, e).nodes
    ensures Step(policy, s, e).nodes[a].exited
       <==> || s.nodes[a].exited
            || e == Abandon(a)
            || (e == Spin(a) && MustExit(s.nodes[a].window.inputs + s.nodes[a].queue))
  {
    if e == Spin(a) && !s.nodes[a].exited {
      SpinEffect(policy, s, a);
    }
  }

  // ----- The server

  /** A datagram that reaches the server: its source, content, which one it is, and whether the application is there. */
  datatype Arrival = Arrival(src: Address, content: CompressedWindow, packet: Option<nat>, alive: bool)

  function ArrivalOf(s: State, e: Event): Option<Arrival> {
    match e
    case Arrive(k, alive) =>
      if k < |s.net| then Some(Arrival(s.net[k].src, s.net[k].content, Some(k), alive)) else None
    case Stray(src, content, alive) =>
      if src in s.nodes then None else Some(Arrival(src, content, None, alive))
    case _ => None
  }

  /** The server pays attention to a datagram from a registered address that fits its buffer and can be read. */
  ghost predicate Accepts(s: State, d: Arrival) {
    && !s.serverExited && EncodedSize(d.content) <= MAX_PACKET_SIZE
    && Known(s.book, d.src) && Readable(d.content.comp)
  }

  /** Every other datagram changes nothing. */
  lemma IgnoredEffect(policy: Policy, s: State, e: Event)
    requires ArrivalOf(s, e).Some? && !Accepts(s, ArrivalOf(s, e).value)
    ensures Step(policy, s, e) == s
  {
    var d := ArrivalOf(s, e).value;
    HandleCases(s.book, s.lastTick, d.alive, d.src, d.content);
    assert s.log + [] == s.log && s.acks + [] == s.acks;
  }

  /** An accepted datagram is acknowledged with the new counter, and forwarded first if it is newer. */
  lemma AcceptedEffect(policy: Policy, s: State, e: Event, user: Username, w: TickWindow)
    requires s.book.OneToOne() && ArrivalOf(s, e).Some? && Accepts(s, ArrivalOf(s, e).value)
    requires s.book.Has(ArrivalOf(s, e).value.src, user) && Carries(ArrivalOf(s, e).value.content, w)
    ensures var d, t := ArrivalOf(s, e).value, Step(policy, s, e);
            if w.LastTick() <= s.lastTick then
              t == s.(acks := s.acks + [Ack(d.src, s.lastTick, true)])
            else if d.alive then
              t == s.(lastTick := w.LastTick(),
                      log := s.log + [Entry(d.src, Forward(user, w), d.packet)],
                      acks := s.acks + [Ack(d.src, w.LastTick(), true)])
            else
              t == s.(lastTick := w.LastTick(), serverExited := true)
  {
    var d := ArrivalOf(s, e).value;
    HandleCases(s.book, s.lastTick, d.alive, d.src, d.content);
    var tick := if w.LastTick() > s.lastTick then w.LastTick() else s.lastTick;
    assert AcksOf([Datagram(d.src, LastTickReceived(tick))], true) == [Ack(d.src, tick, true)];
    assert s.log + [] == s.log && s.acks + [] == s.acks;
  }

  /** A batch updates the registrations and sends the latest acknowledgement in it to its user's address. */
  lemma BatchEffect(policy: Policy, s: State, messages: seq<ApplicationMessage>)
    requires s.book.OneToOne() && !s.serverExited
    ensures var t := Step(policy, s, Batch(messages));
            && t == s.(book := t.book, acks := t.acks)
            && UpdatedBy(messages, s.book, t.book)
            && exists out :: && Delivers(messages, t.book, false, out)
                             && (out == [] ==> t.acks == s.acks)
                             && (forall a: Address, n: nat :: out == [Datagram(a, LastTickReceived(n))] ==>
                                   t.acks == s.acks + [Ack(a, n, false)])
  {
    var f := Fold(messages, s.book);
    FoldDelivers(messages, s.book, false);
    LatestOfEachKind(messages, s.book, true);
    LatestOfEachKind(messages, s.book, false);
    KeptKind(messages, s.book);
    var out := RouteOption(f.book, f.outgoing.lastTick);
    var world := RouteOption(f.book, f.outgoing.worldState);
    assert Delivers(messages, f.book, false, out);
    assert AcksOf(world + out, false) == AcksOf(out, false) by {
      if world != [] {
        assert (world + out)[1..] == out;
      } else {
        assert world + out == out;
      }
    }
    assert s.acks + [] == s.acks;
    forall a: Address, n: nat | out == [Datagram(a, LastTickReceived(n))]
      ensures AcksOf(out, false) == [Ack(a, n, false)]
    {
    }
  }

  lemma {:induction false} KeptKind(messages: seq<ApplicationMessage>, book: Book)
    ensures var o := Fold(messages, book).outgoing;
            && (o.worldState.Some? ==> o.worldState.value.payload.WorldState?)
            && (o.lastTick.Some? ==> o.lastTick.value.payload.LastTickReceived?)
  {
    if messages == [] {
    } else {
      KeptKind(messages[..|messages| - 1], book);
    }
  }

  /**
   The server stops at a step exactly when it is ended from outside, or when it has something newer
   to forward and its application is gone.
   */
  lemma ServerExitsIff(policy: Policy, s: State, e: Event)
    requires s.book.OneToOne()
    ensures Step(policy, s, e).serverExited
       <==> || s.serverExited
            || e == ServerAbandon
            || (&& ArrivalOf(s, e).Some? && Accepts(s, ArrivalOf(s, e).value) && !ArrivalOf(s, e).value.alive
                && exists w :: Carries(ArrivalOf(s, e).value.content, w) && w.LastTick() > s.lastTick)
  {
    if ArrivalOf(s, e).Some? {
      var d := ArrivalOf(s, e).value;
      if Accepts(s, d) {
        FromCompressedIff(d.content);
        var user :| s.book.Has(d.src, user);
        AcceptedEffect(policy, s, e, user, FromCompressedOf(d.content).value);
      } else {
        IgnoredEffect(policy, s, e);
      }
    }
  }

  /** The application is there whenever a datagram arrives, and nothing ends the server from outside. */
  ghost predicate ApplicationStays(events: seq<Event>) {
    forall i :: 0 <= i < |events| ==>
      && events[i] != ServerAbandon
      && (events[i].Arrive? ==> events[i].applicationAlive)
      && (events[i].Stray? ==> events[i].applicationAlive)
  }

  /** Then no datagram, however malformed and from whatever address, stops the server. */
  lemma {:induction false} ServerStaysUp(policy: Policy, s: State, events: seq<Event>)
    requires Consistent(s) && !s.serverExited && ApplicationStays(events)
    ensures !Run(policy, s, events).serverExited
    decreases events
  {
    if events == [] {
    } else {
      assert events[0] != ServerAbandon;
      ServerExitsIff(policy, s, events[0]);
      StepOk(policy, s, events[0]);
      ServerStaysUp(policy, Step(policy, s, events[0]), events[1..]);
    }
  }
}

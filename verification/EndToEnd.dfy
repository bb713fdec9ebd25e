/** What every run of the network guarantees, under loss, duplication, reordering and stray datagrams. */
module EndToEnd {
  import opened Wrappers
  import opened Messages
  import opened AddressBook
  import opened BitVector
  import opened Control
  import opened ClientServicer
  import opened ServerServicer
  import opened Network

  // ----- Window safety

  function Window(s: State, i: nat): TickWindow
    requires i < |s.log|
  {
    s.log[i].forward.window
  }

  /** Entry i of the log is, bit for bit, the part of its sender's inputs that begins at `from`. */
  ghost predicate IsWindow(s: State, i: nat, from: nat)
    requires i < |s.log| && s.log[i].src in s.nodes
  {
    var inputs := s.nodes[s.log[i].src].Inputs();
    && Window(s, i).inputs != []
    && from + |Window(s, i).inputs| <= |inputs|
    && Window(s, i).inputs == inputs[from..from + |Window(s, i).inputs|]
  }

  /** Places every forwarded sequence in its client's inputs so that successive ones never move back at either end. */
  ghost predicate PlacesWindows(s: State, from: seq<nat>) {
    && |from| == |s.log|
    && (forall i :: 0 <= i < |s.log| && s.log[i].src in s.nodes ==> IsWindow(s, i, from[i]))
    && (forall i, j :: 0 <= i < j < |s.log| && s.log[i].src == s.log[j].src && s.log[i].src in s.nodes ==>
          && from[i] <= from[j]
          && from[i] + |Window(s, i).inputs| <= from[j] + |Window(s, j).inputs|)
  }

  lemma LogInOrder(s: State, i: nat, j: nat)
    requires Consistent(s) && i < j < |s.log|
    requires s.log[i].src == s.log[j].src && s.log[i].src in s.nodes
    ensures EntryOk(s, s.log[i]) && s.log[i].packet.Some? && EntryOk(s, s.log[j]) && s.log[j].packet.Some?
    ensures s.log[i].packet.value < s.log[j].packet.value
    ensures InOrder(s.net[s.log[i].packet.value], s.net[s.log[j].packet.value])
  {
    assert EntryOk(s, s.log[i]) && EntryOk(s, s.log[j]);
    assert EntryTick(s.log[i]) < EntryTick(s.log[j]);
    var p, q := s.log[i].packet.value, s.log[j].packet.value;
    assert q < p ==> InOrder(s.net[q], s.net[p]);
  }

  lemma EntryIsWindow(s: State, i: nat)
    requires Consistent(s) && i < |s.log| && s.log[i].src in s.nodes
    ensures EntryOk(s, s.log[i]) && s.log[i].packet.Some?
    ensures IsWindow(s, i, s.net[s.log[i].packet.value].from)
  {
    assert EntryOk(s, s.log[i]);
    var p := s.net[s.log[i].packet.value];
    var n := s.nodes[p.src];
    assert SentOk(n, p);
    assert n.Inputs()[p.from..p.End()] == n.taken[p.from..p.End()];
  }

  lemma ConsistentPlacesWindows(s: State)
    requires Consistent(s)
    ensures exists from :: PlacesWindows(s, from)
  {
    var from := seq(|s.log|, i requires 0 <= i < |s.log| =>
      if s.log[i].packet.Some? && s.log[i].packet.value < |s.net| then s.net[s.log[i].packet.value].from else 0);
    forall i | 0 <= i < |s.log| && s.log[i].src in s.nodes
      ensures IsWindow(s, i, from[i])
    {
      EntryIsWindow(s, i);
    }
    forall i, j | 0 <= i < j < |s.log| && s.log[i].src == s.log[j].src && s.log[i].src in s.nodes
      ensures from[i] <= from[j] && from[i] + |Window(s, i).inputs| <= from[j] + |Window(s, j).inputs|
    {
      LogInOrder(s, i, j);
    }
    assert PlacesWindows(s, from);
  }

  /** The inputs that client a's servicer accepts from its application in a run, in order. */
  ghost function Accepted(policy: Policy, s: State, events: seq<Event>, a: Address): seq<BitVal>
    decreases events
  {
    if events == [] then []
    else
      var rest := Accepted(policy, Step(policy, s, events[0]), events[1..], a);
      match events[0]
      case Input(b, input) => if b == a && a in s.nodes && !s.nodes[a].exited then [input] + rest else rest
      case _ => rest
  }

  lemma StepInputs(policy: Policy, s: State, e: Event, a: Address)
    requires a in s.nodes
    ensures var t := Step(policy, s, e);
            && a in t.nodes
            && t.nodes[a].Inputs() == s.nodes[a].Inputs()
               + if e.Input? && e.a == a && !s.nodes[a].exited then [e.input] else []
  {
  }

  /** Nothing is lost, added or reordered between the application and the servicer. */
  lemma {:induction false} InputsConserved(policy: Policy, s: State, events: seq<Event>, a: Address)
    requires a in s.nodes
    ensures a in Run(policy, s, events).nodes
    ensures Run(policy, s, events).nodes[a].Inputs() == s.nodes[a].Inputs() + Accepted(policy, s, events, a)
    decreases events
  {
    if events == [] {
    } else {
      StepInputs(policy, s, events[0], a);
      InputsConserved(policy, Step(policy, s, events[0]), events[1..], a);
    }
  }

  /**
   In every run, whichever retirement step the clients use, each sequence forwarded for a client
   is a contiguous window of the inputs it accepted, and its windows never move back at either end.
   */
  lemma WindowSafety(policy: Policy, addresses: set<Address>, events: seq<Event>)
    ensures exists from :: PlacesWindows(Run(policy, Init(addresses), events), from)
    ensures forall a :: a in addresses ==>
              && a in Run(policy, Init(addresses), events).nodes
              && Run(policy, Init(addresses), events).nodes[a].Inputs()
                 == Accepted(policy, Init(addresses), events, a)
  {
    forall a | a in addresses
      ensures a in Run(policy, Init(addresses), events).nodes
      ensures Run(policy, Init(addresses), events).nodes[a].Inputs() == Accepted(policy, Init(addresses), events, a)
    {
      InputsConserved(policy, Init(addresses), events, a);
    }
    InitOk(addresses, EMPTY_BOOK);
    RunOk(policy, Init(addresses), events);
    ConsistentPlacesWindows(Run(policy, Init(addresses), events));
  }

  /** No datagram of a client is ever cut off by the receive buffer, and each decodes to the buffer it was made from. */
  lemma NothingTruncated(policy: Policy, addresses: set<Address>, events: seq<Event>)
    ensures var s := Run(policy, Init(addresses), events);
            forall k :: 0 <= k < |s.net| ==>
              && EncodedSize(s.net[k].content) <= MAX_PACKET_SIZE
              && FromCompressedOf(s.net[k].content) == Some(s.net[k].window)
  {
    InitOk(addresses, EMPTY_BOOK);
    RunOk(policy, Init(addresses), events);
    var s := Run(policy, Init(addresses), events);
    forall k | 0 <= k < |s.net|
      ensures SentOk(s.nodes[s.net[k].src], s.net[k])
    {
    }
  }

  // ----- Acknowledgements

  /** The counter names the newest forwarded sequence, and every nonzero ack of the servicer names a forwarded one. */
  lemma AckedImpliesDelivered(policy: Policy, addresses: set<Address>, events: seq<Event>)
    ensures var s := Run(policy, Init(addresses), events);
            && (forall i, j :: 0 <= i < j < |s.log| ==> EntryTick(s.log[i]) < EntryTick(s.log[j]))
            && (forall i :: 0 <= i < |s.log| ==> EntryTick(s.log[i]) <= s.lastTick)
            && (!s.serverExited && s.log != [] ==> exists i :: 0 <= i < |s.log| && EntryTick(s.log[i]) == s.lastTick)
            && (!s.serverExited && s.log == [] ==> s.lastTick == 0)
            && (forall k :: 0 <= k < |s.acks| && s.acks[k].own && s.acks[k].tick != 0 ==>
                  exists i :: 0 <= i < |s.log| && EntryTick(s.log[i]) == s.acks[k].tick)
  {
    InitOk(addresses, EMPTY_BOOK);
    RunOk(policy, Init(addresses), events);
    var s := Run(policy, Init(addresses), events);
    forall i | 0 <= i < |s.log|
      ensures EntryTick(s.log[i]) <= Delivered(s.log)
    {
    }
    forall k | 0 <= k < |s.acks| && s.acks[k].own && s.acks[k].tick != 0
      ensures exists i :: 0 <= i < |s.log| && EntryTick(s.log[i]) == s.acks[k].tick
    {
      assert AckOk(s, s.acks[k]);
    }
  }

  ghost predicate NoStrays(events: seq<Event>) {
    forall i :: 0 <= i < |events| ==> !events[i].Stray?
  }

  ghost predicate AllFromClients(s: State) {
    forall i :: 0 <= i < |s.log| ==> s.log[i].packet.Some?
  }

  lemma {:induction false} NoStraysAllFromClients(policy: Policy, s: State, events: seq<Event>)
    requires AllFromClients(s) && NoStrays(events)
    ensures AllFromClients(Run(policy, s, events))
    ensures Run(policy, s, events).nodes.Keys == s.nodes.Keys
    decreases events
  {
    if events == [] {
    } else {
      assert !events[0].Stray?;
      NoStraysAllFromClients(policy, Step(policy, s, events[0]), events[1..]);
    }
  }

  /** An ack made by the servicer never runs ahead of every client; with a single client, never ahead of it. */
  lemma AckBound(policy: Policy, addresses: set<Address>, events: seq<Event>, k: nat)
    requires NoStrays(events)
    requires k < |Run(policy, Init(addresses), events).acks| && Run(policy, Init(addresses), events).acks[k].own
    ensures var s := Run(policy, Init(addresses), events);
            && (s.acks[k].tick != 0 ==>
                  exists a :: a in addresses && a in s.nodes && s.acks[k].tick <= s.nodes[a].window.LastTick())
            && forall a :: addresses == {a} && a in s.nodes ==> s.acks[k].tick <= s.nodes[a].window.LastTick()
  {
    var s := Run(policy, Init(addresses), events);
    InitOk(addresses, EMPTY_BOOK);
    RunOk(policy, Init(addresses), events);
    NoStraysAllFromClients(policy, Init(addresses), events);
    if s.acks[k].tick != 0 {
      assert AckOk(s, s.acks[k]);
      var i :| 0 <= i < |s.log| && EntryTick(s.log[i]) == s.acks[k].tick;
      assert EntryOk(s, s.log[i]);
      var p := s.net[s.log[i].packet.value];
      assert p.src in s.nodes && SentOk(s.nodes[p.src], p);
    }
  }

  // ----- Registrations that stay put

  ghost predicate KeepsRegistrations(events: seq<Event>) {
    forall i :: 0 <= i < |events| && events[i].Batch? ==>
      forall j :: 0 <= j < |events[i].messages| ==> events[i].messages[j].Deliver?
  }

  lemma {:induction false} FoldKeepsBook(messages: seq<ApplicationMessage>, book: Book)
    requires forall j :: 0 <= j < |messages| ==> messages[j].Deliver?
    ensures Fold(messages, book).book == book
  {
    if messages == [] {
    } else {
      FoldKeepsBook(messages[..|messages| - 1], book);
    }
  }

  ghost predicate LoggedUnder(s: State, book: Book) {
    s.book == book && forall i :: 0 <= i < |s.log| ==> book.Has(s.log[i].src, s.log[i].forward.from)
  }

  lemma StepLoggedUnder(policy: Policy, s: State, e: Event)
    requires LoggedUnder(s, s.book)
    requires e.Batch? ==> forall j :: 0 <= j < |e.messages| ==> e.messages[j].Deliver?
    ensures LoggedUnder(Step(policy, s, e), s.book)
  {
    if e.Batch? {
      FoldKeepsBook(e.messages, s.book);
    }
  }

  lemma {:induction false} RunLoggedUnder(policy: Policy, s: State, events: seq<Event>)
    requires LoggedUnder(s, s.book) && KeepsRegistrations(events)
    ensures LoggedUnder(Run(policy, s, events), s.book)
    decreases events
  {
    if events == [] {
    } else {
      StepLoggedUnder(policy, s, events[0]);
      RunLoggedUnder(policy, Step(policy, s, events[0]), events[1..]);
    }
  }

  /**
   With registrations that stay put, what is forwarded under one user name comes from one
   address, so window safety holds per user.
   */
  lemma WindowSafetyPerUser(policy: Policy, addresses: set<Address>, book: Book, events: seq<Event>)
    requires book.OneToOne() && KeepsRegistrations(events)
    ensures exists from :: PlacesWindows(Run(policy, InitWith(addresses, book), events), from)
    ensures var log := Run(policy, InitWith(addresses, book), events).log;
            forall i, j :: 0 <= i < |log| && 0 <= j < |log| ==>
              (log[i].forward.from == log[j].forward.from <==> log[i].src == log[j].src)
  {
    var s := Run(policy, InitWith(addresses, book), events);
    InitOk(addresses, book);
    RunOk(policy, InitWith(addresses, book), events);
    ConsistentPlacesWindows(s);
    RunLoggedUnder(policy, InitWith(addresses, book), events);
    forall i, j | 0 <= i < |s.log| && 0 <= j < |s.log|
      ensures s.log[i].forward.from == s.log[j].forward.from <==> s.log[i].src == s.log[j].src
    {
      assert book.Has(s.log[i].src, s.log[i].forward.from) && book.Has(s.log[j].src, s.log[j].forward.from);
    }
  }

  // ----- Inputs that are lost for good

  /** Some forwarded sequence of client a contains its input number m. */
  ghost predicate Forwarded(s: State, a: Address, m: nat) {
    exists i :: 0 <= i < |s.log| && Contains(s, i, a, m)
  }

  ghost predicate Contains(s: State, i: nat, a: Address, m: nat)
    requires i < |s.log|
  {
    && s.log[i].src == a && s.log[i].packet.Some? && s.log[i].packet.value < |s.net|
    && s.net[s.log[i].packet.value].from <= m < s.net[s.log[i].packet.value].End()
  }

  lemma AckWithinDelivered(s: State, k: nat)
    requires Consistent(s) && k < |s.acks| && s.acks[k].own
    ensures s.acks[k].tick <= Delivered(s.log)
  {
    assert AckOk(s, s.acks[k]);
  }

  lemma {:induction false} RunExtends(policy: Policy, s: State, events: seq<Event>)
    ensures var t := Run(policy, s, events);
            s.log <= t.log && s.net <= t.net && s.nodes.Keys == t.nodes.Keys
    decreases events
  {
    if events == [] {
    } else {
      StepExtends(policy, s, events[0]);
      RunExtends(policy, Step(policy, s, events[0]), events[1..]);
    }
  }

  lemma StepExtends(policy: Policy, s: State, e: Event)
    ensures var t := Step(policy, s, e);
            s.log <= t.log && s.net <= t.net && s.nodes.Keys == t.nodes.Keys
  {
  }

  /** Once a window beyond input m has been forwarded, m is forwarded later only if it was before. */
  lemma PassedOverForGood(policy: Policy, s: State, i: nat, m: nat, events: seq<Event>)
    requires Consistent(s) && i < |s.log| && s.log[i].src in s.nodes
    requires s.log[i].packet.Some? && s.log[i].packet.value < |s.net| && m < s.net[s.log[i].packet.value].from
    ensures Forwarded(Run(policy, s, events), s.log[i].src, m) <==> Forwarded(s, s.log[i].src, m)
  {
    var t, a := Run(policy, s, events), s.log[i].src;
    RunOk(policy, s, events);
    RunExtends(policy, s, events);
    assert t.log[i] == s.log[i] && t.net[s.log[i].packet.value] == s.net[s.log[i].packet.value];
    forall j | 0 <= j < |t.log| && Contains(t, j, a, m)
      ensures Forwarded(s, a, m)
    {
      if j > i {
        LogInOrder(t, i, j);
        assert false;
      } else {
        assert t.log[j] == s.log[j];
        assert EntryOk(s, s.log[j]);
        assert Contains(s, j, a, m);
      }
    }
    forall j | 0 <= j < |s.log| && Contains(s, j, a, m)
      ensures Forwarded(t, a, m)
    {
      assert t.log[j] == s.log[j];
      assert Contains(t, j, a, m);
    }
  }
}

/**
 Clients and server of the low-latency path joined by UDP, as one step function.

 Every datagram ever sent stays in `net` and can reach the server any number of times, in any
 order, or never; acknowledgements behave likewise.  Addresses that belong to no client may
 send anything.  Each servicer's work is split into its separate steps, interleaved freely.
 */
module Network {
  import opened Wrappers
  import opened Messages
  import opened AddressBook
  import opened BitVector
  import opened Control
  import opened ClientServicer
  import opened ServerServicer

  /** Which retirement step the clients run: src/control.rs as written, or what its caller asks for. */
  datatype Policy = AsWritten | AsIntended

  function Retire(policy: Policy, w: TickWindow, tick: nat): TickWindow {
    if policy == AsWritten then Retired(w, tick) else RetiredAsIntended(w, tick)
  }

  /**
   A client: inputs its application queued, the servicer's buffer, whether the servicer has
   exited.  History: all inputs the servicer took from the queue, and how many of them
   retirement has removed.
   */
  datatype Node = Node(queue: seq<BitVal>, window: TickWindow, exited: bool, taken: seq<BitVal>, dropped: nat) {
    /** Every input the application sent, in order. */
    function Inputs(): seq<BitVal> {
      taken + queue
    }
  }

  /** A datagram a client sent; history: the buffer it was made from and where that starts in the client's inputs. */
  datatype Sent = Sent(src: Address, content: CompressedWindow, window: TickWindow, from: nat) {
    function End(): nat {
      from + |window.inputs|
    }
  }

  /** An acknowledgement sent to a client, by the servicer itself or on behalf of the application. */
  datatype Ack = Ack(to: Address, tick: nat, own: bool)

  /** A forwarded sequence; history: where its datagram came from, and which one it was if a client sent it. */
  datatype Entry = Entry(src: Address, forward: Forward, packet: Option<nat>)

  datatype State = State(
    nodes: map<Address, Node>,
    net: seq<Sent>,
    acks: seq<Ack>,
    book: Book,
    lastTick: nat,
    serverExited: bool,
    log: seq<Entry>)

  datatype Event =
    | Input(a: Address, input: BitVal)
    | Spin(a: Address)
    | Abandon(a: Address)
    | Receive(a: Address, ack: nat)
    | Arrive(packet: nat, applicationAlive: bool)
    | Stray(src: Address, content: CompressedWindow, applicationAlive: bool)
    | Batch(messages: seq<ApplicationMessage>)
    | ServerAbandon

  function Init(addresses: set<Address>): State {
    InitWith(addresses, EMPTY_BOOK)
  }

  function InitWith(addresses: set<Address>, book: Book): State {
    State(map a | a in addresses :: Node([], EMPTY, false, [], 0), [], [], book, 0, false, [])
  }

  /** The servicer takes every queued input into its buffer and tries to send the buffer. */
  ghost function SpinNode(n: Node): (Node, Attempt) {
    var w := PushedAll(n.window, n.queue);
    var attempt := AttemptOf(w);
    (Node([], w, attempt == TooLarge, n.taken + n.queue, n.dropped), attempt)
  }

  function RetireNode(policy: Policy, n: Node, tick: nat): Node {
    var w := Retire(policy, n.window, tick);
    n.(window := w,
       dropped := n.dropped + if |w.inputs| <= |n.window.inputs| then |n.window.inputs| - |w.inputs| else 0)
  }

  function AcksOf(datagrams: seq<Datagram>, own: bool): seq<Ack> {
    if datagrams == [] then []
    else
      match datagrams[0].payload
      case WorldState(_) => AcksOf(datagrams[1..], own)
      case LastTickReceived(tick) => [Ack(datagrams[0].to, tick, own)] + AcksOf(datagrams[1..], own)
  }

  /** What a batch sends. */
  function Routes(f: Folded): seq<Datagram> {
    RouteOption(f.book, f.outgoing.worldState) + RouteOption(f.book, f.outgoing.lastTick)
  }

  /** A datagram longer than the receive buffer is cut off and cannot be deserialized. */
  ghost function Serve(s: State, src: Address, content: CompressedWindow, packet: Option<nat>, alive: bool): State {
    if s.serverExited || EncodedSize(content) > MAX_PACKET_SIZE then s
    else
      var h := HandleOf(s.book, s.lastTick, alive, src, content);
      s.(lastTick := h.lastTick,
         serverExited := h.outcome == Err(Exit),
         acks := s.acks + AcksOf(h.acks, true),
         log := s.log + if h.forwarded.Some? then [Entry(src, h.forwarded.value, packet)] else [])
  }

  ghost function Step(policy: Policy, s: State, e: Event): State {
    match e
    case Input(a, input) =>
      if a !in s.nodes || s.nodes[a].exited then s
      else s.(nodes := s.nodes[a := s.nodes[a].(queue := s.nodes[a].queue + [input])])
    case Spin(a) =>
      if a !in s.nodes || s.nodes[a].exited then s
      else
        var (n, attempt) := SpinNode(s.nodes[a]);
        s.(nodes := s.nodes[a := n],
           net := s.net + if attempt.Packet? then [Sent(a, attempt.content, n.window, n.dropped)] else [])
    case Abandon(a) =>
      if a !in s.nodes then s else s.(nodes := s.nodes[a := s.nodes[a].(exited := true)])
    case Receive(a, k) =>
      if a !in s.nodes || s.nodes[a].exited || k >= |s.acks| || s.acks[k].to != a then s
      else s.(nodes := s.nodes[a := RetireNode(policy, s.nodes[a], s.acks[k].tick)])
    case Arrive(k, alive) =>
      if k >= |s.net| then s else Serve(s, s.net[k].src, s.net[k].content, Some(k), alive)
    case Stray(src, content, alive) =>
      if src in s.nodes then s else Serve(s, src, content, None, alive)
    case Batch(messages) =>
      if s.serverExited then s
      else
        var f := Fold(messages, s.book);
        s.(book := f.book,
           acks := s.acks + AcksOf(Routes(f), false))
    case ServerAbandon => s.(serverExited := true)
  }

  ghost function Run(policy: Policy, s: State, events: seq<Event>): State
    decreases events
  {
    if events == [] then s else Run(policy, Step(policy, s, events[0]), events[1..])
  }

  lemma {:induction false} RunConcat(policy: Policy, s: State, first: seq<Event>, second: seq<Event>)
    ensures Run(policy, s, first + second) == Run(policy, Run(policy, s, first), second)
    decreases first
  {
    if first == [] {
      assert first + second == second;
    } else {
      assert (first + second)[1..] == first[1..] + second;
      RunConcat(policy, Step(policy, s, first[0]), first[1..], second);
    }
  }

  // ----- The invariant

  /** The buffer is what retirement has left of the inputs taken so far. */
  ghost predicate NodeOk(n: Node) {
    n.dropped <= |n.taken| && n.window.inputs == n.taken[n.dropped..]
  }

  /** A sent datagram decodes to a window of its sender's inputs, and the sender has not moved behind it. */
  ghost predicate SentOk(n: Node, p: Sent) {
    && p.window.inputs != []
    && FromCompressedOf(p.content) == Some(p.window)
    && EncodedSize(p.content) <= MAX_PACKET_SIZE
    && p.from <= n.dropped && p.End() <= |n.taken|
    && p.window.inputs == n.taken[p.from..p.End()]
    && p.window.LastTick() <= n.window.LastTick()
  }

  ghost predicate InOrder(p: Sent, q: Sent) {
    p.src == q.src ==> p.from <= q.from && p.End() <= q.End() && p.window.LastTick() <= q.window.LastTick()
  }

  ghost predicate EntryOk(s: State, e: Entry) {
    match e.packet
    case None => e.src !in s.nodes
    case Some(k) => k < |s.net| && s.net[k].src == e.src && s.net[k].window == e.forward.window
  }

  function EntryTick(e: Entry): nat {
    e.forward.window.LastTick()
  }

  /** The last tick of the latest forwarded sequence, 0 when there is none. */
  function Delivered(log: seq<Entry>): nat {
    if log == [] then 0 else EntryTick(log[|log| - 1])
  }

  ghost predicate AckOk(s: State, ack: Ack) {
    ack.own && ack.tick != 0 ==> exists i :: 0 <= i < |s.log| && EntryTick(s.log[i]) == ack.tick
  }

  ghost predicate ClientsOk(s: State) {
    && (forall a :: a in s.nodes ==> NodeOk(s.nodes[a]))
    && (forall k :: 0 <= k < |s.net| ==> s.net[k].src in s.nodes && SentOk(s.nodes[s.net[k].src], s.net[k]))
    && (forall i, j :: 0 <= i < j < |s.net| ==> InOrder(s.net[i], s.net[j]))
  }

  ghost predicate ServerOk(s: State) {
    && s.book.OneToOne()
    && (forall i :: 0 <= i < |s.log| ==> EntryOk(s, s.log[i]))
    && (forall i, j :: 0 <= i < j < |s.log| ==> EntryTick(s.log[i]) < EntryTick(s.log[j]))
    && Delivered(s.log) <= s.lastTick
    && (!s.serverExited ==> s.lastTick == Delivered(s.log))
    && (forall k :: 0 <= k < |s.acks| ==> AckOk(s, s.acks[k]))
  }

  ghost predicate Consistent(s: State) {
    ClientsOk(s) && ServerOk(s)
  }

  // ----- Every step keeps it

  /** How a client can change: its taken inputs grow, and neither edge of its buffer moves back. */
  ghost predicate Grows(n: Node, m: Node) {
    n.taken <= m.taken && n.dropped <= m.dropped && n.window.LastTick() <= m.window.LastTick()
  }

  lemma SentOkGrows(n: Node, m: Node, p: Sent)
    requires SentOk(n, p) && Grows(n, m)
    ensures SentOk(m, p)
  {
    assert m.taken[p.from..p.End()] == n.taken[p.from..p.End()];
  }

  lemma RetireNodeOk(policy: Policy, n: Node, tick: nat)
    requires NodeOk(n)
    ensures NodeOk(RetireNode(policy, n, tick)) && Grows(n, RetireNode(policy, n, tick))
  {
    RetiredKeepsSuffix(n.window, tick);
    var w := Retire(policy, n.window, tick);
    var removed := |n.window.inputs| - |w.inputs|;
    assert w.inputs == n.window.inputs[removed..];
    assert n.taken[n.dropped..][removed..] == n.taken[n.dropped + removed..];
  }

  lemma SpinNodeOk(n: Node)
    requires NodeOk(n)
    ensures var (m, attempt) := SpinNode(n);
            && NodeOk(m) && Grows(n, m)
            && forall a :: attempt.Packet? ==> SentOk(m, Sent(a, attempt.content, m.window, m.dropped))
  {
    var (m, attempt) := SpinNode(n);
    assert m.taken[m.dropped..] == n.taken[n.dropped..] + n.queue;
    if attempt.Packet? {
      PacketCarriesWindow(m.window);
      assert m.taken[m.dropped..|m.taken|] == m.taken[m.dropped..];
    }
  }

  /** What is said about the server depends on the clients only through who they are and what they sent. */
  lemma ServerKept(s: State, t: State)
    requires Consistent(s)
    requires t.nodes.Keys == s.nodes.Keys && s.net <= t.net && t.log == s.log && t.acks == s.acks
    requires t.book.OneToOne() && Delivered(t.log) <= t.lastTick
    requires !t.serverExited ==> t.lastTick == Delivered(t.log)
    ensures ServerOk(t)
  {
    forall i | 0 <= i < |t.log|
      ensures EntryOk(t, t.log[i])
    {
      assert EntryOk(s, s.log[i]);
    }
    forall k | 0 <= k < |t.acks|
      ensures AckOk(t, t.acks[k])
    {
      assert AckOk(s, s.acks[k]);
    }
  }

  /** Replacing one client by a grown one keeps everything said about the clients. */
  lemma ReplaceNodeOk(s: State, a: Address, m: Node)
    requires Consistent(s) && a in s.nodes && NodeOk(m) && Grows(s.nodes[a], m)
    ensures Consistent(s.(nodes := s.nodes[a := m]))
  {
    var t := s.(nodes := s.nodes[a := m]);
    forall k | 0 <= k < |s.net|
      ensures t.net[k].src in t.nodes && SentOk(t.nodes[t.net[k].src], t.net[k])
    {
      if s.net[k].src == a {
        SentOkGrows(s.nodes[a], m, s.net[k]);
      }
    }
    ServerKept(s, t);
  }

  /** Sending the whole buffer keeps the datagrams of a client in order. */
  lemma SendOk(s: State, p: Sent)
    requires Consistent(s) && p.src in s.nodes && SentOk(s.nodes[p.src], p)
    requires p.from == s.nodes[p.src].dropped && p.window == s.nodes[p.src].window
    ensures Consistent(s.(net := s.net + [p]))
  {
    forall i | 0 <= i < |s.net|
      ensures InOrder(s.net[i], p)
    {
      assert SentOk(s.nodes[s.net[i].src], s.net[i]);
    }
    ServerKept(s, s.(net := s.net + [p]));
  }

  /** Every ack made from a list of datagrams stands for one of them. */
  lemma AckMade(datagrams: seq<Datagram>, own: bool, k: nat)
    requires k < |AcksOf(datagrams, own)|
    ensures var ack := AcksOf(datagrams, own)[k];
            ack.own == own && Datagram(ack.to, LastTickReceived(ack.tick)) in datagrams
  {
    if datagrams[0].payload.WorldState? {
      AckMade(datagrams[1..], own, k);
    } else if k > 0 {
      AckMade(datagrams[1..], own, k - 1);
    }
  }

  lemma AppendAcksOk(s: State, datagrams: seq<Datagram>, own: bool)
    requires Consistent(s)
    requires own ==> forall d :: d in datagrams && d.payload.LastTickReceived? ==> d.payload.tick == Delivered(s.log)
    ensures Consistent(s.(acks := s.acks + AcksOf(datagrams, own)))
  {
    var t := s.(acks := s.acks + AcksOf(datagrams, own));
    ServerKept(s, t.(acks := s.acks));
    forall k | 0 <= k < |t.acks|
      ensures AckOk(t, t.acks[k])
    {
      if k < |s.acks| {
        assert AckOk(s, s.acks[k]);
      } else {
        AckMade(datagrams, own, k - |s.acks|);
        if own && s.log != [] {
          assert EntryTick(t.log[|t.log| - 1]) == t.acks[k].tick;
        }
      }
    }
  }

  lemma ForwardOk(s: State, e: Entry)
    requires Consistent(s) && !s.serverExited && EntryOk(s, e) && EntryTick(e) > s.lastTick
    ensures Consistent(s.(lastTick := EntryTick(e), log := s.log + [e]))
  {
    var t := s.(lastTick := EntryTick(e), log := s.log + [e]);
    forall i | 0 <= i < |t.log|
      ensures EntryOk(t, t.log[i])
    {
      assert i < |s.log| ==> EntryOk(s, s.log[i]);
    }
    forall i | 0 <= i < |s.log|
      ensures EntryTick(s.log[i]) <= Delivered(s.log)
    {
    }
    forall k | 0 <= k < |t.acks|
      ensures AckOk(t, t.acks[k])
    {
      assert AckOk(s, s.acks[k]);
      if s.acks[k].own && s.acks[k].tick != 0 {
        var i :| 0 <= i < |s.log| && EntryTick(s.log[i]) == s.acks[k].tick;
        assert t.log[i] == s.log[i];
      }
    }
  }

  lemma ServeOk(s: State, src: Address, content: CompressedWindow, packet: Option<nat>, alive: bool)
    requires Consistent(s)
    requires packet == None ==> src !in s.nodes
    requires packet.Some? ==>
               packet.value < |s.net| && s.net[packet.value].src == src && s.net[packet.value].content == content
    ensures Consistent(Serve(s, src, content, packet, alive))
  {
    var t := Serve(s, src, content, packet, alive);
    if !s.serverExited && EncodedSize(content) <= MAX_PACKET_SIZE {
      var h := HandleOf(s.book, s.lastTick, alive, src, content);
      AckGoesBack(s.book, s.lastTick, alive, src, content);
      if h.forwarded.Some? {
        var e := Entry(src, h.forwarded.value, packet);
        if packet.Some? {
          assert SentOk(s.nodes[src], s.net[packet.value]);
        }
        ForwardOk(s, e);
        AppendAcksOk(s.(lastTick := EntryTick(e), log := s.log + [e]), h.acks, true);
      } else {
        assert s.log + [] == s.log;
        if h.outcome == Outcome.Ok {
          AppendAcksOk(s, h.acks, true);
        } else {
          assert s.acks + AcksOf(h.acks, true) == s.acks;
          ServerKept(s, t);
        }
      }
    }
  }

  lemma BatchOk(policy: Policy, s: State, messages: seq<ApplicationMessage>)
    requires Consistent(s)
    ensures Consistent(Step(policy, s, Batch(messages)))
  {
    if !s.serverExited {
      var f := Fold(messages, s.book);
      FoldKeepsOneToOne(messages, s.book);
      ServerKept(s, s.(book := f.book));
      AppendAcksOk(s.(book := f.book), Routes(f), false);
    }
  }

  lemma SpinOk(policy: Policy, s: State, a: Address)
    requires Consistent(s)
    ensures Consistent(Step(policy, s, Spin(a)))
  {
    if a in s.nodes && !s.nodes[a].exited {
      SpinNodeOk(s.nodes[a]);
      var (n, attempt) := SpinNode(s.nodes[a]);
      ReplaceNodeOk(s, a, n);
      if attempt.Packet? {
        SendOk(s.(nodes := s.nodes[a := n]), Sent(a, attempt.content, n.window, n.dropped));
      } else {
        assert s.net + [] == s.net;
      }
    }
  }

  lemma InputOk(policy: Policy, s: State, a: Address, input: BitVal)
    requires Consistent(s)
    ensures Consistent(Step(policy, s, Input(a, input)))
  {
    if a in s.nodes && !s.nodes[a].exited {
      ReplaceNodeOk(s, a, s.nodes[a].(queue := s.nodes[a].queue + [input]));
    }
  }

  lemma ReceiveOk(policy: Policy, s: State, a: Address, k: nat)
    requires Consistent(s)
    ensures Consistent(Step(policy, s, Receive(a, k)))
  {
    if a in s.nodes && !s.nodes[a].exited && k < |s.acks| && s.acks[k].to == a {
      RetireNodeOk(policy, s.nodes[a], s.acks[k].tick);
      ReplaceNodeOk(s, a, RetireNode(policy, s.nodes[a], s.acks[k].tick));
    }
  }

  lemma ArriveOk(policy: Policy, s: State, e: Event)
    requires Consistent(s) && (e.Arrive? || e.Stray?)
    ensures Consistent(Step(policy, s, e))
  {
    if e.Arrive? && e.packet < |s.net| {
      ServeOk(s, s.net[e.packet].src, s.net[e.packet].content, Some(e.packet), e.applicationAlive);
    } else if e.Stray? && e.src !in s.nodes {
      ServeOk(s, e.src, e.content, None, e.applicationAlive);
    }
  }

  /** Every step of either policy keeps the invariant. */
  lemma StepOk(policy: Policy, s: State, e: Event)
    requires Consistent(s)
    ensures Consistent(Step(policy, s, e))
  {
    match e
    case Input(a, input) => InputOk(policy, s, a, input);
    case Spin(a) => SpinOk(policy, s, a);
    case Abandon(a) =>
      if a in s.nodes {
        ReplaceNodeOk(s, a, s.nodes[a].(exited := true));
      }
    case Receive(a, k) => ReceiveOk(policy, s, a, k);
    case Arrive(_, _) => ArriveOk(policy, s, e);
    case Stray(_, _, _) => ArriveOk(policy, s, e);
    case Batch(messages) => BatchOk(policy, s, messages);
    case ServerAbandon => ServerKept(s, s.(serverExited := true));
  }

  lemma InitOk(addresses: set<Address>, book: Book)
    requires book.OneToOne()
    ensures Consistent(InitWith(addresses, book))
  {
  }

  lemma {:induction false} RunOk(policy: Policy, s: State, events: seq<Event>)
    requires Consistent(s)
    ensures Consistent(Run(policy, s, events))
    decreases events
  {
    if events == [] {
    } else {
      StepOk(policy, s, events[0]);
      RunOk(policy, Step(policy, s, events[0]), events[1..]);
    }
  }
}

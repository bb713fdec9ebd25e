/** The server's low-latency servicer, src/server/low_latency.rs. */
module ServerServicer {
  import opened Wrappers
  import opened Messages
  import opened Queues
  import opened AddressBook
  import opened Codec
  import opened Control

  datatype ToClient = ToClient(to: Username, payload: ServerMessage)

  datatype ApplicationMessage =
    | Deliver(message: ToClient)
    | NewClient(username: Username, address: Address)
    | ClientDisconnect(user: Username)

  /** What the application thread receives: a controller sequence and the user it came from. */
  datatype Forward = Forward(from: Username, window: TickWindow)

  datatype Datagram = Datagram(to: Address, payload: ServerMessage)

  // ----- Batches of application messages

  /** The latest message of each kind; every other one in the batch is discarded. */
  datatype Outgoing = Outgoing(worldState: Option<ToClient>, lastTick: Option<ToClient>)

  datatype Folded = Folded(outgoing: Outgoing, book: Book)

  const NOTHING := Outgoing(None, None)

  function FoldOne(f: Folded, message: ApplicationMessage): Folded {
    match message
    case Deliver(toClient) =>
      if toClient.payload.WorldState? then f.(outgoing := f.outgoing.(worldState := Some(toClient)))
      else f.(outgoing := f.outgoing.(lastTick := Some(toClient)))
    case NewClient(username, address) => f.(book := f.book.Insert(address, username))
    case ClientDisconnect(user) => f.(book := f.book.RemoveBySecond(user))
  }

  function Fold(messages: seq<ApplicationMessage>, book: Book): Folded {
    if messages == [] then Folded(NOTHING, book)
    else FoldOne(Fold(messages[..|messages| - 1], book), messages[|messages| - 1])
  }

  method ParseApplicationMessages(messages: seq<ApplicationMessage>, book: Book)
    returns (outgoing: Outgoing, updated: Book)
    ensures Folded(outgoing, updated) == Fold(messages, book)
    ensures KeepsLatest(messages, true, outgoing.worldState) && KeepsLatest(messages, false, outgoing.lastTick)
    ensures book.OneToOne() ==> updated.OneToOne() && UpdatedBy(messages, book, updated)
  {
    outgoing, updated := NOTHING, book;
    for i := 0 to |messages|
      invariant Folded(outgoing, updated) == Fold(messages[..i], book)
    {
      assert messages[..i + 1][..i] == messages[..i];
      match messages[i]
      case Deliver(toClient) =>
        match toClient.payload {
          case WorldState(_) => outgoing := outgoing.(worldState := Some(toClient));
          case LastTickReceived(_) => outgoing := outgoing.(lastTick := Some(toClient));
        }
      case NewClient(username, address) =>
        updated := updated.Insert(address, username);
      case ClientDisconnect(user) =>
        updated := updated.RemoveBySecond(user);
    }
    assert messages[..|messages|] == messages;
    LatestOfEachKind(messages, book, true);
    LatestOfEachKind(messages, book, false);
    if book.OneToOne() {
      FoldUpdates(messages, book);
    }
  }

  /** Where a message goes: the address registered for its user, if there is one. */
  function Route(book: Book, message: ToClient): seq<Datagram> {
    match book.GetBySecond(message.to)
    case None => []
    case Some(address) => [Datagram(address, message.payload)]
  }

  function RouteOption(book: Book, message: Option<ToClient>): seq<Datagram> {
    match message
    case None => []
    case Some(m) => Route(book, m)
  }

  // ----- Controller inputs

  /** The last tick after a datagram, what is forwarded, what is acknowledged, and how the step ends. */
  datatype Handled = Handled(lastTick: nat, forwarded: Option<Forward>, acks: seq<Datagram>, outcome: Outcome)

  ghost function HandleOf(book: Book, lastTick: nat, applicationAlive: bool, src: Address, input: CompressedWindow)
    : Handled
  {
    match book.GetByFirst(src)
    case None => Handled(lastTick, None, [], Err(Warn(UnknownSource(src))))
    case Some(user) =>
      match FromCompressedOf(input)
      case None => Handled(lastTick, None, [], Err(Warn(FailedToDecompress)))
      case Some(w) =>
        if w.LastTick() <= lastTick then
          Handled(lastTick, None, Route(book, ToClient(user, LastTickReceived(lastTick))), Ok)
        else if applicationAlive then
          Handled(w.LastTick(), Some(Forward(user, w)),
                  Route(book, ToClient(user, LastTickReceived(w.LastTick()))), Ok)
        else
          Handled(w.LastTick(), None, [], Err(Exit))
  }

  class Servicer {
    const toApplication: Channel<Forward>
    const fromApplication: Channel<ApplicationMessage>
    var book: Book
    var lastTickReceived: nat
    /** Every datagram handed to the socket. */
    var sent: seq<Datagram>

    constructor (toApplication: Channel<Forward>, fromApplication: Channel<ApplicationMessage>)
      ensures book == EMPTY_BOOK && lastTickReceived == 0 && sent == []
      ensures book.OneToOne() && forall a: Address, u :: !book.Has(a, u)
      ensures this.toApplication == toApplication && this.fromApplication == fromApplication
    {
      this.toApplication, this.fromApplication := toApplication, fromApplication;
      book, lastTickReceived, sent := EMPTY_BOOK, 0, [];
    }

    /** `io` is what the socket answers; an unknown user is only logged. */
    method SendMessage(message: ToClient, io: Outcome) returns (r: Outcome)
      modifies this`sent
      ensures r == if Route(book, message) == [] then Ok else io
      ensures sent == if io == Ok then old(sent) + Route(book, message) else old(sent)
      ensures book.OneToOne() ==> forall a: Address :: book.Has(a, message.to) ==>
                r == io && sent == if io == Ok then old(sent) + [Datagram(a, message.payload)] else old(sent)
      ensures book.OneToOne() && (forall a: Address :: !book.Has(a, message.to)) ==> r == Ok && sent == old(sent)
    {
      var address := book.GetBySecond(message.to);
      if address.None? {
        return Ok;
      }
      if io == Ok {
        sent := sent + [Datagram(address.value, message.payload)];
      }
      return io;
    }

    method HandleControllerInput(src: Address, input: CompressedWindow, io: Outcome) returns (r: Outcome)
      modifies this`lastTickReceived, this`sent, toApplication`queue
      ensures var h := HandleOf(old(book), old(lastTickReceived), toApplication.receiverAlive, src, input);
              && lastTickReceived == h.lastTick
              && toApplication.queue == old(toApplication.queue)
                                      + (if h.forwarded.Some? then [h.forwarded.value] else [])
              && sent == old(sent) + (if io == Ok then h.acks else [])
              && r == if h.acks == [] then h.outcome else io
      ensures !Known(book, src) ==> r == Err(Warn(UnknownSource(src)))
      ensures Known(book, src) && !Readable(input.comp) ==> r == Err(Warn(FailedToDecompress))
      ensures !Known(book, src) || !Readable(input.comp) ==>
                && lastTickReceived == old(lastTickReceived) && sent == old(sent)
                && toApplication.queue == old(toApplication.queue)
      ensures forall u, w :: book.Has(src, u) && Carries(input, w) ==>
                && lastTickReceived == (if w.LastTick() > old(lastTickReceived) then w.LastTick()
                                        else old(lastTickReceived))
                && toApplication.queue == old(toApplication.queue)
                     + (if w.LastTick() > old(lastTickReceived) && toApplication.receiverAlive then [Forward(u, w)]
                        else [])
      ensures book.OneToOne() ==> forall u, w :: book.Has(src, u) && Carries(input, w) ==>
                if w.LastTick() > old(lastTickReceived) && !toApplication.receiverAlive then
                  r == Err(Exit) && sent == old(sent)
                else
                  && r == io
                  && sent == old(sent)
                       + if io == Ok then [Datagram(src, LastTickReceived(lastTickReceived))] else []
    {
      FromCompressedIff(input);
      var user := book.GetByFirst(src);
      if user.None? {
        return Err(Warn(UnknownSource(src)));
      }
      var controllerSeq := ToControllerSequence(input);
      if controllerSeq.None? {
        return Err(Warn(FailedToDecompress));
      }
      var w := controllerSeq.value.Value();
      if w.LastTick() > lastTickReceived {
        lastTickReceived := w.LastTick();
        var delivered := toApplication.Send(Forward(user.value, w));
        if !delivered {
          return Err(Exit);
        }
      }
      r := SendMessage(ToClient(user.value, LastTickReceived(lastTickReceived)), io);
    }

    /**
     Handles a whole batch, then sends what is left of it using the updated address book.  The
     socket answers `ioWorld` and `ioTick`; a first send that fails suppresses the second.
     */
    method ForwardFromServerToClient(ioWorld: Outcome, ioTick: Outcome) returns (r: Outcome)
      modifies this`book, this`sent, fromApplication`queue
      ensures fromApplication.queue == []
      ensures !fromApplication.senderAlive ==> r == Err(Exit) && book == old(book) && sent == old(sent)
      ensures fromApplication.senderAlive ==>
                var f := Fold(old(fromApplication.queue), old(book));
                var world, tick := RouteOption(f.book, f.outgoing.worldState), RouteOption(f.book, f.outgoing.lastTick);
                && book == f.book
                && (world != [] && ioWorld != Ok ==> r == ioWorld && sent == old(sent))
                && (world == [] || ioWorld == Ok ==>
                      && r == (if tick == [] then Ok else ioTick)
                      && sent == old(sent) + world + if ioTick == Ok then tick else [])
      ensures fromApplication.senderAlive && old(book.OneToOne()) ==>
                && book.OneToOne() && UpdatedBy(old(fromApplication.queue), old(book), book)
                && exists world, tick ::
                     && Delivers(old(fromApplication.queue), book, true, world)
                     && Delivers(old(fromApplication.queue), book, false, tick)
                     && (world != [] && ioWorld != Ok ==> r == ioWorld && sent == old(sent))
                     && (world == [] || ioWorld == Ok ==>
                           && r == (if tick == [] then Ok else ioTick)
                           && sent == old(sent) + world + if ioTick == Ok then tick else [])
    {
      if book.OneToOne() {
        FoldDelivers(fromApplication.queue, book, true);
        FoldDelivers(fromApplication.queue, book, false);
      }
      var batch := Drain(fromApplication);
      r := Ok;
      match batch
      case Failed(_) =>
        r := Err(Exit);
      case Batch(messages) =>
        var outgoing, updated := ParseApplicationMessages(messages, book);
        book := updated;
        if outgoing.worldState.Some? {
          r := SendMessage(outgoing.worldState.value, ioWorld);
          if r != Ok {
            return;
          }
        }
        if outgoing.lastTick.Some? {
          r := SendMessage(outgoing.lastTick.value, ioTick);
        }
    }
  }

  // ----- What a batch does

  lemma {:induction false} FoldKeepsOneToOne(messages: seq<ApplicationMessage>, book: Book)
    requires book.OneToOne()
    ensures Fold(messages, book).book.OneToOne()
  {
    if messages == [] {
    } else {
      FoldKeepsOneToOne(messages[..|messages| - 1], book);
    }
  }

  /** Message i of the batch removes the pair (a, u) if it was there, unless it is that very pair. */
  predicate Displaces(message: ApplicationMessage, a: Address, u: Username) {
    match message
    case Deliver(_) => false
    case NewClient(username, address) => (username == u) != (address == a)
    case ClientDisconnect(user) => user == u
  }

  ghost predicate UndisturbedFrom(messages: seq<ApplicationMessage>, i: nat, a: Address, u: Username) {
    forall k :: i <= k < |messages| ==> !Displaces(messages[k], a, u)
  }

  /** Message i registers the pair and nothing displaces it since. */
  ghost predicate CameIn(messages: seq<ApplicationMessage>, i: nat, a: Address, u: Username) {
    i < |messages| && messages[i] == NewClient(u, a) && UndisturbedFrom(messages, i, a, u)
  }

  /** A pair is registered after a batch exactly when it was there or came in, and nothing displaced it since. */
  lemma {:induction false} RegisteredIff(messages: seq<ApplicationMessage>, book: Book, a: Address, u: Username)
    requires book.OneToOne()
    ensures Fold(messages, book).book.Has(a, u) <==>
            (book.Has(a, u) && UndisturbedFrom(messages, 0, a, u)) || exists i: nat :: CameIn(messages, i, a, u)
  {
    if messages == [] {
    } else {
      var m := |messages| - 1;
      var init, last := messages[..m], messages[m];
      RegisteredIff(init, book, a, u);
      FoldKeepsOneToOne(init, book);
      UndisturbedSnoc(messages, 0, a, u);
      CameInSnoc(messages, a, u);
      HasAfterOne(Fold(init, book), last, a, u);
    }
  }

  lemma HasAfterOne(f: Folded, message: ApplicationMessage, a: Address, u: Username)
    requires f.book.OneToOne()
    ensures FoldOne(f, message).book.Has(a, u)
       <==> message == NewClient(u, a) || (f.book.Has(a, u) && !Displaces(message, a, u))
  {
  }

  lemma CameInSnoc(messages: seq<ApplicationMessage>, a: Address, u: Username)
    requires messages != []
    ensures var init, last := messages[..|messages| - 1], messages[|messages| - 1];
            (exists i: nat :: CameIn(messages, i, a, u))
            <==> last == NewClient(u, a) || ((exists i: nat :: CameIn(init, i, a, u)) && !Displaces(last, a, u))
  {
    var m := |messages| - 1;
    var init := messages[..m];
    forall i: nat | i < m
      ensures CameIn(messages, i, a, u) <==> CameIn(init, i, a, u) && !Displaces(messages[m], a, u)
    {
      UndisturbedSnoc(messages, i, a, u);
    }
    assert CameIn(messages, m, a, u) <==> messages[m] == NewClient(u, a);
    if i: nat :| CameIn(init, i, a, u) && !Displaces(messages[m], a, u) {
      assert CameIn(messages, i, a, u);
    }
    if i: nat :| CameIn(messages, i, a, u) && i < m {
      assert CameIn(init, i, a, u);
    }
  }

  lemma UndisturbedSnoc(messages: seq<ApplicationMessage>, i: nat, a: Address, u: Username)
    requires i < |messages|
    ensures UndisturbedFrom(messages, i, a, u)
       <==> UndisturbedFrom(messages[..|messages| - 1], i, a, u) && !Displaces(messages[|messages| - 1], a, u)
  {
    var m := |messages| - 1;
    assert forall k :: i <= k < m ==> messages[..m][k] == messages[k];
  }

  ghost predicate IsLatest(messages: seq<ApplicationMessage>, i: nat, worldState: bool) {
    && i < |messages| && messages[i].Deliver? && messages[i].message.payload.WorldState? == worldState
    && forall k :: i < k < |messages| && messages[k].Deliver? ==> messages[k].message.payload.WorldState? != worldState
  }

  function Slot(outgoing: Outgoing, worldState: bool): Option<ToClient> {
    if worldState then outgoing.worldState else outgoing.lastTick
  }

  /** Across all users only the latest message of each kind survives a batch, and it does survive. */
  lemma {:induction false} LatestOfEachKind(messages: seq<ApplicationMessage>, book: Book, worldState: bool)
    ensures var kept := Slot(Fold(messages, book).outgoing, worldState);
            && (forall i: nat :: IsLatest(messages, i, worldState) ==> kept == Some(messages[i].message))
            && (kept == None <==> forall i: nat :: !IsLatest(messages, i, worldState))
  {
    if messages == [] {
    } else {
      var m := |messages| - 1;
      var init := messages[..m];
      LatestOfEachKind(init, book, worldState);
      var supersedes := messages[m].Deliver? && messages[m].message.payload.WorldState? == worldState;
      assert IsLatest(messages, m, worldState) <==> supersedes;
      forall i: nat | i < m
        ensures IsLatest(messages, i, worldState) <==> IsLatest(init, i, worldState) && !supersedes
      {
        assert forall k :: 0 <= k < m ==> init[k] == messages[k];
      }
    }
  }

  function Override(first: Option<ToClient>, second: Option<ToClient>): Option<ToClient> {
    if second.Some? then second else first
  }

  /** Two batches in a row come to their concatenation, with the later messages winning kind by kind. */
  lemma {:induction false} FoldConcat(m1: seq<ApplicationMessage>, m2: seq<ApplicationMessage>, book: Book)
    ensures var f1 := Fold(m1, book);
            var f2 := Fold(m2, f1.book);
            Fold(m1 + m2, book) ==
            Folded(Outgoing(Override(f1.outgoing.worldState, f2.outgoing.worldState),
                            Override(f1.outgoing.lastTick, f2.outgoing.lastTick)), f2.book)
  {
    if m2 == [] {
      assert m1 + m2 == m1;
    } else {
      FoldConcat(m1, m2[..|m2| - 1], book);
      assert (m1 + m2)[..|m1 + m2| - 1] == m1 + m2[..|m2| - 1];
    }
  }

  /** `kept` is the latest message of its kind in the batch, None when there is none. */
  ghost predicate KeepsLatest(messages: seq<ApplicationMessage>, worldState: bool, kept: Option<ToClient>) {
    && (forall i: nat :: IsLatest(messages, i, worldState) ==> kept == Some(messages[i].message))
    && ((forall i: nat :: !IsLatest(messages, i, worldState)) ==> kept == None)
  }

  /** The pair was there or came in, and nothing displaced it since. */
  ghost predicate RegisteredAfter(messages: seq<ApplicationMessage>, book: Book, a: Address, u: Username) {
    (book.Has(a, u) && UndisturbedFrom(messages, 0, a, u)) || exists i: nat :: CameIn(messages, i, a, u)
  }

  ghost predicate UpdatedBy(messages: seq<ApplicationMessage>, book: Book, updated: Book) {
    forall a: Address, u :: updated.Has(a, u) <==> RegisteredAfter(messages, book, a, u)
  }

  lemma FoldUpdates(messages: seq<ApplicationMessage>, book: Book)
    requires book.OneToOne()
    ensures Fold(messages, book).book.OneToOne() && UpdatedBy(messages, book, Fold(messages, book).book)
  {
    FoldKeepsOneToOne(messages, book);
    forall a: Address, u
      ensures Fold(messages, book).book.Has(a, u) <==> RegisteredAfter(messages, book, a, u)
    {
      RegisteredIff(messages, book, a, u);
    }
  }

  /** Sending the message by this book is sending `out`: one datagram to the user's address, none without one. */
  ghost predicate Reaches(message: ToClient, book: Book, out: seq<Datagram>) {
    && (forall a: Address :: book.Has(a, message.to) ==> out == [Datagram(a, message.payload)])
    && ((forall a: Address :: !book.Has(a, message.to)) ==> out == [])
  }

  /** `out` is what the latest message of the kind comes to under this book. */
  ghost predicate Delivers(messages: seq<ApplicationMessage>, book: Book, worldState: bool, out: seq<Datagram>) {
    && (forall i: nat :: IsLatest(messages, i, worldState) ==> Reaches(messages[i].message, book, out))
    && ((forall i: nat :: !IsLatest(messages, i, worldState)) ==> out == [])
  }

  lemma FoldDelivers(messages: seq<ApplicationMessage>, book: Book, worldState: bool)
    requires book.OneToOne()
    ensures var f := Fold(messages, book);
            && f.book.OneToOne() && UpdatedBy(messages, book, f.book)
            && Delivers(messages, f.book, worldState, RouteOption(f.book, Slot(f.outgoing, worldState)))
  {
    FoldUpdates(messages, book);
    LatestOfEachKind(messages, book, worldState);
  }

  // ----- What a datagram does

  ghost predicate Known(book: Book, src: Address) {
    exists u :: book.Has(src, u)
  }

  /** The five ways in which a datagram is handled. */
  lemma HandleCases(book: Book, lastTick: nat, alive: bool, src: Address, input: CompressedWindow)
    ensures var h := HandleOf(book, lastTick, alive, src, input);
            && (!Known(book, src) ==> h == Handled(lastTick, None, [], Err(Warn(UnknownSource(src)))))
            && (Known(book, src) && !Readable(input.comp) ==>
                  h == Handled(lastTick, None, [], Err(Warn(FailedToDecompress))))
            && forall u, w :: book.Has(src, u) && Carries(input, w) ==>
                 if w.LastTick() > lastTick && !alive then h == Handled(w.LastTick(), None, [], Err(Exit))
                 else
                   && h.outcome == Ok
                   && h.lastTick == (if w.LastTick() > lastTick then w.LastTick() else lastTick)
                   && h.forwarded == (if w.LastTick() > lastTick then Some(Forward(u, w)) else None)
                   && (book.OneToOne() ==> h.acks == [Datagram(src, LastTickReceived(h.lastTick))])
  {
    FromCompressedIff(input);
    assert forall u :: book.Has(src, u) ==> book.GetByFirst(src) == Some(u);
  }

  /** An acknowledgement goes back to the address the datagram came from and names the counter after the step. */
  lemma AckGoesBack(book: Book, lastTick: nat, alive: bool, src: Address, input: CompressedWindow)
    requires book.OneToOne()
    ensures var h := HandleOf(book, lastTick, alive, src, input);
            && (h.acks == [Datagram(src, LastTickReceived(h.lastTick))] || (h.acks == [] && h.outcome != Ok))
            && (h.acks != [] <==> h.outcome == Ok)
            && h.lastTick >= lastTick
            && (h.forwarded.Some? <==> h.outcome == Ok && h.lastTick > lastTick)
            && (h.forwarded.Some? ==> h.forwarded.value.window.LastTick() == h.lastTick)
  {
  }
}

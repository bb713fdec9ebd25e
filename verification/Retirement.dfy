/**
 Exactly when a client retires an input that was never forwarded: under either retirement step,
 for any number of clients, any acknowledgements and any network.
 */
module Retirement {
  import opened Wrappers
  import opened Messages
  import opened AddressBook
  import opened Control
  import opened Network
  import opened EndToEnd

  // ----- How far a client has been forwarded

  /** The index of the latest log entry that came from a. */
  function Latest(log: seq<Entry>, a: Address): (i: Option<nat>)
    ensures i.Some? ==> i.value < |log| && log[i.value].src == a
    ensures i.Some? ==> forall j :: i.value < j < |log| ==> log[j].src != a
    ensures i.None? ==> forall j :: 0 <= j < |log| ==> log[j].src != a
  {
    if log == [] then None
    else if log[|log| - 1].src == a then Some(|log| - 1)
    else Latest(log[..|log| - 1], a)
  }

  /** The last tick of the latest sequence forwarded for a, 0 when there is none. */
  function Own(log: seq<Entry>, a: Address): nat {
    match Latest(log, a)
    case None => 0
    case Some(i) => EntryTick(log[i])
  }

  /** Where the latest sequence forwarded for a ends in its inputs, 0 when there is none. */
  function Reach(s: State, a: Address): nat {
    match Latest(s.log, a)
    case None => 0
    case Some(i) =>
      if s.log[i].packet.Some? && s.log[i].packet.value < |s.net| then s.net[s.log[i].packet.value].End() else 0
  }

  lemma ForwardedWithinReach(s: State, a: Address, m: nat)
    requires Consistent(s) && a in s.nodes && Forwarded(s, a, m)
    ensures m < Reach(s, a)
  {
    var j :| 0 <= j < |s.log| && Contains(s, j, a, m);
    var i := Latest(s.log, a).value;
    if j < i {
      LogInOrder(s, j, i);
    }
  }

  /** An input that is still in the buffer, or newer, has been forwarded exactly when it lies before the reach. */
  lemma ForwardedIff(s: State, a: Address, m: nat)
    requires Consistent(s) && a in s.nodes && s.nodes[a].dropped <= m
    ensures Forwarded(s, a, m) <==> m < Reach(s, a)
  {
    if Forwarded(s, a, m) {
      ForwardedWithinReach(s, a, m);
    } else if m < Reach(s, a) {
      var i := Latest(s.log, a).value;
      assert EntryOk(s, s.log[i]);
      assert SentOk(s.nodes[a], s.net[s.log[i].packet.value]);
      assert Contains(s, i, a, m);
    }
  }

  // ----- One acknowledgement

  /** Acknowledgement k is one that client a can receive. */
  predicate Receivable(s: State, a: Address, k: nat) {
    a in s.nodes && !s.nodes[a].exited && k < |s.acks| && s.acks[k].to == a
  }

  /** Receiving acknowledgement k retires an input of a that was not forwarded. */
  ghost predicate RetiresUnforwarded(policy: Policy, s: State, a: Address, k: nat)
    requires Receivable(s, a, k)
  {
    var t := Step(policy, s, Receive(a, k));
    exists m: nat :: s.nodes[a].dropped <= m < t.nodes[a].dropped && !Forwarded(t, a, m)
  }

  /** How many inputs an acknowledgement of `tick` removes. */
  function Removed(policy: Policy, w: TickWindow, tick: nat): nat {
    if policy == AsWritten then |w.inputs| - Kept(w, tick) else Kept(w, tick)
  }

  lemma ReceiveRemoves(policy: Policy, s: State, a: Address, k: nat)
    requires Receivable(s, a, k)
    ensures var n, t := s.nodes[a], Step(policy, s, Receive(a, k));
            && t.log == s.log && t.net == s.net && a in t.nodes
            && t.nodes[a].dropped == n.dropped + Removed(policy, n.window, s.acks[k].tick)
  {
    RetiredKeepsSuffix(s.nodes[a].window, s.acks[k].tick);
  }

  /** It does so exactly when it removes inputs past the reach. */
  lemma RetiresPastReachIff(policy: Policy, s: State, a: Address, k: nat)
    requires Consistent(s) && Receivable(s, a, k)
    ensures var n, removed := s.nodes[a], Removed(policy, s.nodes[a].window, s.acks[k].tick);
            RetiresUnforwarded(policy, s, a, k) <==> removed > 0 && n.dropped + removed > Reach(s, a)
  {
    var n, removed := s.nodes[a], Removed(policy, s.nodes[a].window, s.acks[k].tick);
    var t := Step(policy, s, Receive(a, k));
    ReceiveRemoves(policy, s, a, k);
    forall m: nat | n.dropped <= m
      ensures Forwarded(t, a, m) <==> m < Reach(s, a)
    {
      ForwardedIff(s, a, m);
      assert forall i :: 0 <= i < |s.log| ==> (Contains(t, i, a, m) <==> Contains(s, i, a, m));
    }
    if removed > 0 && n.dropped + removed > Reach(s, a) {
      assert !Forwarded(t, a, n.dropped + removed - 1);
    }
  }

  // ----- The condition in ticks

  /** Under the intended step every tick label is a position in the client's inputs. */
  ghost predicate Positions(s: State) {
    && (forall a :: a in s.nodes ==> s.nodes[a].window.startTick == s.nodes[a].dropped)
    && (forall k :: 0 <= k < |s.net| ==> s.net[k].window.startTick == s.net[k].from)
  }

  /** A datagram made since the client's latest retirement, or one whose ticks all lie before the client's. */
  ghost predicate InEpoch(n: Node, p: Sent) {
    || (p.window.startTick == n.window.startTick && p.from == n.dropped)
    || p.window.LastTick() < n.window.startTick
  }

  /** Under the written step every retirement starts labels that are past all earlier ones. */
  ghost predicate Epochs(s: State) {
    forall k :: 0 <= k < |s.net| ==> s.net[k].src in s.nodes && InEpoch(s.nodes[s.net[k].src], s.net[k])
  }

  ghost predicate Labels(policy: Policy, s: State) {
    if policy == AsWritten then Epochs(s) else Positions(s)
  }

  lemma ReceiveKeepsLabels(policy: Policy, s: State, a: Address, k: nat)
    requires Consistent(s) && Labels(policy, s)
    ensures Labels(policy, Step(policy, s, Receive(a, k)))
  {
    var t := Step(policy, s, Receive(a, k));
    forall j | policy == AsWritten && 0 <= j < |t.net|
      ensures t.net[j].src in t.nodes && InEpoch(t.nodes[t.net[j].src], t.net[j])
    {
      assert SentOk(s.nodes[s.net[j].src], s.net[j]);
    }
  }

  lemma SpinKeepsLabels(policy: Policy, s: State, a: Address)
    requires Labels(policy, s)
    ensures Labels(policy, Step(policy, s, Spin(a)))
  {
  }

  lemma StepKeepsLabels(policy: Policy, s: State, e: Event)
    requires Consistent(s) && Labels(policy, s)
    ensures Labels(policy, Step(policy, s, e))
  {
    match e
    case Receive(a, k) => ReceiveKeepsLabels(policy, s, a, k);
    case Spin(a) => SpinKeepsLabels(policy, s, a);
    case _ =>
  }

  lemma {:induction false} RunKeepsLabels(policy: Policy, s: State, events: seq<Event>)
    requires Consistent(s) && Labels(policy, s)
    ensures Labels(policy, Run(policy, s, events))
    decreases events
  {
    if events == [] {
    } else {
      StepKeepsLabels(policy, s, events[0]);
      StepOk(policy, s, events[0]);
      RunKeepsLabels(policy, Step(policy, s, events[0]), events[1..]);
    }
  }

  /** The reach in ticks: as intended always, as written once something was forwarded since the latest retirement. */
  lemma ReachInTicks(policy: Policy, s: State, a: Address)
    requires Consistent(s) && Labels(policy, s) && a in s.nodes
    ensures policy == AsIntended ==> Reach(s, a) == Own(s.log, a)
    ensures var n := s.nodes[a];
            policy == AsWritten && Own(s.log, a) > n.window.startTick ==>
              Reach(s, a) == n.dropped + Own(s.log, a) - n.window.startTick
  {
    if Latest(s.log, a).Some? {
      assert EntryOk(s, s.log[Latest(s.log, a).value]);
    }
  }

  /**
   The condition on an acknowledgement.  As intended: it names no tick past the client's own
   latest forwarded one, or the buffer ends there.  As written: what it removes, if anything, has
   been forwarded since the latest retirement, or lies within what was forwarded before it.
   */
  ghost predicate InTime(policy: Policy, s: State, a: Address, k: nat)
    requires Receivable(s, a, k)
  {
    var n, tick, own := s.nodes[a], s.acks[k].tick, Own(s.log, a);
    match policy
    case AsIntended => tick <= own || n.window.LastTick() <= own
    case AsWritten =>
      var removed := |n.window.inputs| - Kept(n.window, tick);
      || removed == 0
      || if own > n.window.startTick then removed <= own - n.window.startTick
         else n.dropped + removed <= Reach(s, a)
  }

  /** Everything retired so far was forwarded. */
  ghost predicate NothingRetiredEarly(s: State, a: Address) {
    a in s.nodes ==> forall m: nat :: m < s.nodes[a].dropped ==> Forwarded(s, a, m)
  }

  lemma RetiredWithinReach(s: State, a: Address)
    requires Consistent(s) && a in s.nodes && NothingRetiredEarly(s, a)
    ensures s.nodes[a].dropped <= Reach(s, a)
  {
    if s.nodes[a].dropped > 0 {
      ForwardedWithinReach(s, a, s.nodes[a].dropped - 1);
    }
  }

  /** The intended step: a client in lockstep, among any number of clients, falls out of it exactly when this holds. */
  lemma IntendedRetiresEarlyIff(s: State, a: Address, k: nat)
    requires Consistent(s) && Positions(s) && Receivable(s, a, k) && NothingRetiredEarly(s, a)
    ensures var t := Step(AsIntended, s, Receive(a, k));
            (exists m: nat :: m < t.nodes[a].dropped && !Forwarded(t, a, m))
            <==> s.acks[k].tick > Own(s.log, a) && s.nodes[a].window.LastTick() > Own(s.log, a)
  {
    var t := Step(AsIntended, s, Receive(a, k));
    ReceiveRemoves(AsIntended, s, a, k);
    RetiredWithinReach(s, a);
    ReachInTicks(AsIntended, s, a);
    RetiresPastReachIff(AsIntended, s, a, k);
    forall m: nat | m < s.nodes[a].dropped
      ensures Forwarded(t, a, m)
    {
      SameForwarded(s, t, a, m);
    }
  }

  lemma SameForwarded(s: State, t: State, a: Address, m: nat)
    requires s.log <= t.log && s.net <= t.net && Forwarded(s, a, m)
    ensures Forwarded(t, a, m)
  {
    var i :| 0 <= i < |s.log| && Contains(s, i, a, m);
    assert Contains(t, i, a, m);
  }

  /** The written step, any number of clients, any history: it retires an unforwarded input exactly when this holds. */
  lemma WrittenRetiresUnforwardedIff(s: State, a: Address, k: nat)
    requires Consistent(s) && Epochs(s) && Receivable(s, a, k)
    ensures var n, own := s.nodes[a], Own(s.log, a);
            var removed, start := |n.window.inputs| - Kept(n.window, s.acks[k].tick), n.window.startTick;
            RetiresUnforwarded(AsWritten, s, a, k)
            <==> removed > 0 && if own > start then removed > own - start else n.dropped + removed > Reach(s, a)
  {
    ReachInTicks(AsWritten, s, a);
    RetiresPastReachIff(AsWritten, s, a, k);
  }

  // ----- One client and the written step

  /** With one client and no strays the latest forwarded sequence is the client's. */
  lemma OneClientOwn(s: State, a: Address)
    requires Consistent(s) && AllFromClients(s) && s.nodes.Keys == {a}
    ensures Own(s.log, a) == Delivered(s.log)
  {
    if s.log != [] {
      assert EntryOk(s, s.log[|s.log| - 1]);
    }
  }

  /**
   One client, an acknowledgement of the servicer past the buffer's start: with T - S inputs
   acknowledged and D - S forwarded since the latest retirement, the step removes the other
   |inputs| - (T - S) from the front, which is too many exactly when it is more than D - S.
   */
  lemma OneClientWrittenIff(s: State, a: Address, k: nat)
    requires Consistent(s) && Epochs(s) && AllFromClients(s) && s.nodes.Keys == {a}
    requires Receivable(s, a, k) && s.acks[k].own && s.acks[k].tick > s.nodes[a].window.startTick
    ensures var w, tick, delivered := s.nodes[a].window, s.acks[k].tick, Delivered(s.log);
            RetiresUnforwarded(AsWritten, s, a, k)
            <==> |w.inputs| - (tick - w.startTick) > delivered - w.startTick
    ensures 2 * (s.acks[k].tick - s.nodes[a].window.startTick) >= |s.nodes[a].window.inputs| ==>
              !RetiresUnforwarded(AsWritten, s, a, k)
  {
    AckWithinDelivered(s, k);
    OneClientOwn(s, a);
    WrittenRetiresUnforwardedIff(s, a, k);
  }

  /** A stale acknowledgement, at or before the buffer's start, empties the buffer as written. */
  lemma StaleAckWrittenIff(s: State, a: Address, k: nat)
    requires Consistent(s) && Epochs(s) && Receivable(s, a, k)
    requires s.acks[k].tick <= s.nodes[a].window.startTick
    ensures Step(AsWritten, s, Receive(a, k)).nodes[a].window.inputs == []
    ensures var n, own := s.nodes[a], Own(s.log, a);
            RetiresUnforwarded(AsWritten, s, a, k)
            <==> n.window.inputs != []
                 && if own > n.window.startTick then |n.window.inputs| > own - n.window.startTick
                    else |n.taken| > Reach(s, a)
  {
    WrittenRetiresUnforwardedIff(s, a, k);
    assert NodeOk(s.nodes[a]);
  }

  // ----- Whole runs

  lemma ReceiveInTimeIff(policy: Policy, s: State, a: Address, k: nat)
    requires Consistent(s) && Labels(policy, s) && Receivable(s, a, k) && NothingRetiredEarly(s, a)
    ensures NothingRetiredEarly(Step(policy, s, Receive(a, k)), a) <==> InTime(policy, s, a, k)
  {
    var t := Step(policy, s, Receive(a, k));
    ReceiveRemoves(policy, s, a, k);
    forall m: nat | m < s.nodes[a].dropped
      ensures Forwarded(t, a, m)
    {
      SameForwarded(s, t, a, m);
    }
    if policy == AsWritten {
      WrittenRetiresUnforwardedIff(s, a, k);
    } else {
      IntendedRetiresEarlyIff(s, a, k);
    }
  }

  /** Only a client's own acknowledgements retire its inputs. */
  lemma OthersRetireNothing(policy: Policy, s: State, e: Event, a: Address)
    requires NothingRetiredEarly(s, a)
    requires e.Receive? ==> e.a != a || !Receivable(s, a, e.ack)
    ensures NothingRetiredEarly(Step(policy, s, e), a)
  {
    var t := Step(policy, s, e);
    StepExtends(policy, s, e);
    if a in t.nodes {
      forall m: nat | m < t.nodes[a].dropped
        ensures Forwarded(t, a, m)
      {
        SameForwarded(s, t, a, m);
      }
    }
  }

  /** At no moment of the run has client a retired an input that was not forwarded. */
  ghost predicate NeverEarly(policy: Policy, s: State, events: seq<Event>, a: Address) {
    forall i :: 0 <= i <= |events| ==> NothingRetiredEarly(Run(policy, s, events[..i]), a)
  }

  /** Event i of the run, if it is an acknowledgement that a receives, meets the condition when it happens. */
  ghost predicate EventInTime(policy: Policy, s: State, events: seq<Event>, i: nat, a: Address)
    requires i < |events|
  {
    var before := Run(policy, s, events[..i]);
    events[i].Receive? && events[i].a == a && Receivable(before, a, events[i].ack) ==>
      InTime(policy, before, a, events[i].ack)
  }

  lemma RunSnoc(policy: Policy, s: State, events: seq<Event>, i: nat)
    requires i < |events|
    ensures Run(policy, s, events[..i + 1]) == Step(policy, Run(policy, s, events[..i]), events[i])
  {
    assert events[..i + 1] == events[..i] + [events[i]];
    RunConcat(policy, s, events[..i], [events[i]]);
    assert [events[i]][1..] == [];
  }

  lemma EventInTimeIff(policy: Policy, s: State, events: seq<Event>, i: nat, a: Address)
    requires Consistent(s) && Labels(policy, s) && i < |events|
    requires NothingRetiredEarly(Run(policy, s, events[..i]), a)
    ensures NothingRetiredEarly(Run(policy, s, events[..i + 1]), a) <==> EventInTime(policy, s, events, i, a)
  {
    var before := Run(policy, s, events[..i]);
    RunOk(policy, s, events[..i]);
    RunKeepsLabels(policy, s, events[..i]);
    RunSnoc(policy, s, events, i);
    if events[i].Receive? && events[i].a == a && Receivable(before, a, events[i].ack) {
      ReceiveInTimeIff(policy, before, a, events[i].ack);
    } else {
      OthersRetireNothing(policy, before, events[i], a);
    }
  }

  lemma {:induction false} InTimeSoFar(policy: Policy, s: State, events: seq<Event>, i: nat, a: Address)
    requires Consistent(s) && Labels(policy, s) && NothingRetiredEarly(s, a) && i <= |events|
    requires forall j: nat :: j < |events| ==> EventInTime(policy, s, events, j, a)
    ensures NothingRetiredEarly(Run(policy, s, events[..i]), a)
  {
    if i == 0 {
    } else {
      InTimeSoFar(policy, s, events, i - 1, a);
      EventInTimeIff(policy, s, events, i - 1, a);
    }
  }

  /**
   Under either step, for any number of clients, any acknowledgements and any network: no input
   of a client is ever retired before it was forwarded exactly when every acknowledgement the
   client receives is in time when it arrives.
   */
  lemma LockstepIff(policy: Policy, addresses: set<Address>, events: seq<Event>, a: Address)
    ensures NeverEarly(policy, Init(addresses), events, a)
       <==> forall i: nat :: i < |events| ==> EventInTime(policy, Init(addresses), events, i, a)
  {
    var s := Init(addresses);
    InitOk(addresses, EMPTY_BOOK);
    if forall i: nat :: i < |events| ==> EventInTime(policy, s, events, i, a) {
      forall i | 0 <= i <= |events|
        ensures NothingRetiredEarly(Run(policy, s, events[..i]), a)
      {
        InTimeSoFar(policy, s, events, i, a);
      }
    }
    if NeverEarly(policy, s, events, a) {
      forall i: nat | i < |events|
        ensures EventInTime(policy, s, events, i, a)
      {
        EventInTimeIff(policy, s, events, i, a);
      }
    }
  }
}

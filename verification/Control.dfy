/** The controller-input buffer of src/control.rs, as written, beside what its callers want from it. */
module Control {
  import opened Wrappers
  import opened BitVector
  import opened Codec

  /** The two fields of a controller sequence as a value: the tick of the first input, then the inputs. */
  datatype TickWindow = TickWindow(startTick: nat, inputs: seq<BitVal>) {
    function LastTick(): nat {
      startTick + |inputs|
    }
  }

  const EMPTY := TickWindow(0, [])

  datatype CompressedWindow = CompressedWindow(startTick: nat, comp: CompressedBitVec)

  function Clamp(x: int, max: nat): nat {
    if x < 0 then 0 else if x > max then max else x
  }

  function PushedInput(w: TickWindow, input: BitVal): TickWindow {
    TickWindow(w.startTick, w.inputs + [input])
  }

  /** `remove_till_tick` as written: drains last_tick - tick inputs, then restarts past the last tick. */
  function Retired(w: TickWindow, tick: nat): TickWindow {
    TickWindow(w.LastTick() + 1, w.inputs[Clamp(w.LastTick() - tick, |w.inputs|)..])
  }

  /** What its caller asks for: drop the inputs the server has received, which are those before `tick`. */
  function RetiredAsIntended(w: TickWindow, tick: nat): TickWindow {
    var received := Clamp(tick - w.startTick, |w.inputs|);
    TickWindow(w.startTick + received, w.inputs[received..])
  }

  /** `append` as written: skips as many inputs as the start ticks differ. */
  function Appended(w: TickWindow, other: TickWindow): TickWindow {
    var delta := other.startTick - w.startTick;
    TickWindow(w.startTick, w.inputs + if delta > 0 then other.inputs[Clamp(delta, |other.inputs|)..] else [])
  }

  /** Joining two overlapping windows: skip the inputs that w already has. */
  function AppendedAsIntended(w: TickWindow, other: TickWindow): TickWindow {
    TickWindow(w.startTick, w.inputs + other.inputs[Clamp(w.LastTick() - other.startTick, |other.inputs|)..])
  }

  ghost function ToCompressedOf(w: TickWindow): Option<CompressedWindow> {
    match CompressVecOf(w.inputs)
    case None => None
    case Some(comp) => Some(CompressedWindow(w.startTick, comp))
  }

  ghost function FromCompressedOf(c: CompressedWindow): Option<TickWindow> {
    match DecompressVecOf(c.comp)
    case None => None
    case Some(inputs) => Some(TickWindow(c.startTick, inputs))
  }

  /** The payload stands for the window's inputs, under the same start tick. */
  ghost predicate Carries(c: CompressedWindow, w: TickWindow) {
    w.startTick == c.startTick && Denotes(c.comp, w.inputs)
  }

  lemma FromCompressedIff(c: CompressedWindow)
    ensures FromCompressedOf(c).Some? <==> Readable(c.comp)
    ensures forall w :: FromCompressedOf(c) == Some(w) <==> Carries(c, w)
  {
    DecompressAnswers(c.comp.elementSize, c.comp.bits);
    forall w
      ensures FromCompressedOf(c) == Some(w) <==> Carries(c, w)
    {
      DenotesIff(c.comp, w.inputs);
    }
  }

  class ControllerSequence {
    var startTick: nat
    var inputs: seq<BitVal>

    function Value(): TickWindow
      reads this
    {
      TickWindow(startTick, inputs)
    }

    constructor ()
      ensures Value() == EMPTY && startTick == 0 && inputs == []
    {
      startTick, inputs := 0, [];
    }

    constructor FromWindow(w: TickWindow)
      ensures Value() == w
    {
      startTick, inputs := w.startTick, w.inputs;
    }

    method Push(input: BitVal)
      modifies this
      ensures Value() == PushedInput(old(Value()), input)
      ensures startTick == old(startTick) && inputs == old(inputs) + [input]
    {
      inputs := inputs + [input];
    }

    method Append(other: TickWindow)
      modifies this
      ensures Value() == Appended(old(Value()), other)
      ensures startTick == old(startTick) && old(inputs) <= inputs
      ensures other.startTick <= startTick ==> inputs == old(inputs)
      ensures other.startTick > startTick ==>
                var skipped := other.startTick - startTick;
                inputs == old(inputs) + if skipped < |other.inputs| then other.inputs[skipped..] else []
    {
      var tickDelta := other.startTick - startTick;
      if tickDelta > 0 {
        var skip := Clamp(tickDelta, |other.inputs|);
        for i := skip to |other.inputs|
          invariant startTick == old(startTick) && inputs == old(inputs) + other.inputs[skip..i]
        {
          Push(other.inputs[i]);
          assert other.inputs[skip..i + 1] == other.inputs[skip..i] + [other.inputs[i]];
        }
        assert other.inputs[skip..|other.inputs|] == other.inputs[skip..];
      }
    }

    method ToCompressed() returns (r: Option<CompressedWindow>)
      ensures r == ToCompressedOf(Value())
      ensures r.Some? <==> SameLengths(inputs)
      ensures r.Some? ==> Carries(r.value, Value())
    {
      var comp := CompressVec(inputs);
      if comp.None? {
        return None;
      }
      return Some(CompressedWindow(startTick, comp.value));
    }

    predicate IsEmpty()
      reads this
    {
      |inputs| == 0
    }

    method RemoveTillTick(tick: nat)
      modifies this
      ensures Value() == Retired(old(Value()), tick)
      ensures startTick == old(startTick) + |old(inputs)| + 1
      ensures tick <= old(startTick) ==> inputs == []
      ensures tick >= old(startTick) + |old(inputs)| ==> inputs == old(inputs)
      ensures old(startTick) < tick < old(startTick) + |old(inputs)| ==>
                inputs == old(inputs)[|old(inputs)| - (tick - old(startTick))..]
    {
      var lastTick := startTick + |inputs|;
      if lastTick > tick {
        var tickCount := lastTick - tick;
        var end := if tickCount < |inputs| then tickCount else |inputs|;
        inputs := inputs[end..];
      }
      startTick := lastTick + 1;
    }
  }

  method ToControllerSequence(c: CompressedWindow) returns (r: Option<ControllerSequence>)
    ensures r.Some? <==> FromCompressedOf(c).Some?
    ensures r.Some? ==> fresh(r.value) && r.value.Value() == FromCompressedOf(c).value
    ensures r.Some? <==> Readable(c.comp)
    ensures r.Some? ==> Carries(c, r.value.Value())
  {
    var inputs := DecompressVec(c.comp);
    if inputs.None? {
      return None;
    }
    var sequence := new ControllerSequence.FromWindow(TickWindow(c.startTick, inputs.value));
    return Some(sequence);
  }

  // ----- Compression of windows

  lemma WindowRoundTrip(w: TickWindow)
    requires ToCompressedOf(w).Some?
    ensures FromCompressedOf(ToCompressedOf(w).value) == Some(w)
  {
    PackedRoundTrip(w.inputs);
  }

  // ----- Retirement as written

  /** How many inputs an acknowledgement of `tick` leaves in the buffer. */
  function Kept(w: TickWindow, tick: nat): nat {
    if tick <= w.startTick then 0
    else if tick >= w.LastTick() then |w.inputs|
    else tick - w.startTick
  }

  /**
   For every tick the written step keeps the newest inputs, and keeps as many as the
   intended step would remove; the last tick grows by one more than that.
   */
  lemma RetiredKeepsSuffix(w: TickWindow, tick: nat)
    ensures Retired(w, tick).inputs == w.inputs[|w.inputs| - Kept(w, tick)..]
    ensures |RetiredAsIntended(w, tick).inputs| == |w.inputs| - Kept(w, tick)
    ensures Retired(w, tick).LastTick() == w.LastTick() + 1 + Kept(w, tick)
    ensures Retired(w, tick).startTick > w.startTick
    ensures RetiredAsIntended(w, tick).LastTick() == w.LastTick()
  {
  }

  /**
   The written step leaves the inputs it should exactly when there are none or the
   acknowledged tick is the midpoint of the window, and never leaves the start tick it should.
   */
  lemma RetirementMatchesIff(w: TickWindow, tick: nat)
    ensures Retired(w, tick).inputs == RetiredAsIntended(w, tick).inputs
       <==> |w.inputs| == 0 || 2 * (tick - w.startTick) == |w.inputs|
    ensures Retired(w, tick).startTick != RetiredAsIntended(w, tick).startTick
  {
    RetiredKeepsSuffix(w, tick);
    assert |Retired(w, tick).inputs| == Kept(w, tick);
    assert RetiredAsIntended(w, tick).inputs == w.inputs[Kept(w, tick)..];
    assert 2 * Kept(w, tick) == |w.inputs| ==> Retired(w, tick).inputs == RetiredAsIntended(w, tick).inputs;
  }

  /**
   By labels alone: the written step keeps every input labelled `tick` or later exactly when these
   are at most half of the window.  Which inputs were really forwarded is a matter of runs.
   */
  lemma KeepsLaterLabelsIff(w: TickWindow, tick: nat)
    ensures (exists k :: 0 <= k <= |Retired(w, tick).inputs|
                         && Retired(w, tick).inputs[k..] == RetiredAsIntended(w, tick).inputs)
       <==> |w.inputs| == 0 || 2 * (tick - w.startTick) >= |w.inputs|
  {
    var written, intended := Retired(w, tick).inputs, RetiredAsIntended(w, tick).inputs;
    RetiredKeepsSuffix(w, tick);
    var k := |written| - |intended|;
    if k >= 0 {
      assert w.inputs[|w.inputs| - |written|..][k..] == w.inputs[|w.inputs| - |intended|..];
      assert written[k..] == intended;
    }
  }

  /** Joining a window as written gives the joined window exactly under this condition on the ticks. */
  lemma AppendMatchesIff(w: TickWindow, other: TickWindow)
    ensures var delta := other.startTick - w.startTick;
            var overlap := if other.startTick < w.LastTick() then w.LastTick() - other.startTick else 0;
            Appended(w, other) == AppendedAsIntended(w, other)
            <==> || (delta > 0 && delta == overlap)
                 || (|other.inputs| <= overlap && (delta <= 0 || |other.inputs| <= delta))
  {
    var delta, overlap := other.startTick - w.startTick, w.LastTick() - other.startTick;
    var written, intended := Appended(w, other).inputs, AppendedAsIntended(w, other).inputs;
    assert |written| == |w.inputs| + if delta > 0 then |other.inputs| - Clamp(delta, |other.inputs|) else 0;
    assert |intended| == |w.inputs| + |other.inputs| - Clamp(overlap, |other.inputs|);
    if |written| == |intended| && delta <= 0 {
      assert other.inputs[Clamp(overlap, |other.inputs|)..] == [];
    }
  }

  /** Three inputs joined with a window one tick later: the third one is there twice. */
  lemma AppendRepeatsInput(x: BitVal, y: BitVal, z: BitVal, last: BitVal)
    ensures var w, other := TickWindow(0, [x, y, z]), TickWindow(1, [y, z, last]);
            && Appended(w, other) == TickWindow(0, [x, y, z, z, last])
            && AppendedAsIntended(w, other) == TickWindow(0, [x, y, z, last])
  {
    var later := [y, z, last];
    assert later[1..] == [z, last] && later[2..] == [last];
    assert [x, y, z] + [z, last] == [x, y, z, z, last] && [x, y, z] + [last] == [x, y, z, last];
  }

  // ----- Exact tick accounting over runs

  datatype Action = PushInput(input: BitVal) | AckTick(tick: nat)

  function RunActions(actions: seq<Action>): TickWindow {
    if actions == [] then EMPTY
    else
      var before := RunActions(actions[..|actions| - 1]);
      match actions[|actions| - 1]
      case PushInput(input) => PushedInput(before, input)
      case AckTick(tick) => Retired(before, tick)
  }

  function PushedInputs(actions: seq<Action>): seq<BitVal> {
    if actions == [] then []
    else
      var before := PushedInputs(actions[..|actions| - 1]);
      match actions[|actions| - 1]
      case PushInput(input) => before + [input]
      case AckTick(_) => before
  }

  /** Each acknowledgement adds one and the number of inputs it leaves behind. */
  function AckGain(actions: seq<Action>): nat {
    if actions == [] then 0
    else
      var init := actions[..|actions| - 1];
      match actions[|actions| - 1]
      case PushInput(_) => AckGain(init)
      case AckTick(tick) => AckGain(init) + 1 + Kept(RunActions(init), tick)
  }

  /** In every run from an empty buffer the last tick counts the pushed inputs and the gain of every acknowledgement. */
  lemma {:induction false} TickAccounting(actions: seq<Action>)
    ensures RunActions(actions).LastTick() == |PushedInputs(actions)| + AckGain(actions)
  {
    if actions == [] {
    } else {
      var init := actions[..|actions| - 1];
      TickAccounting(init);
      if actions[|actions| - 1].AckTick? {
        RetiredKeepsSuffix(RunActions(init), actions[|actions| - 1].tick);
      }
    }
  }

  /** The buffer always holds the newest pushed inputs: retirement only ever removes from the front. */
  lemma {:induction false} BufferIsSuffix(actions: seq<Action>) returns (dropped: nat)
    ensures dropped <= |PushedInputs(actions)|
    ensures RunActions(actions).inputs == PushedInputs(actions)[dropped..]
  {
    dropped := 0;
    if actions == [] {
    } else {
      var init := actions[..|actions| - 1];
      dropped := BufferIsSuffix(init);
      match actions[|actions| - 1]
      case PushInput(input) =>
        assert (PushedInputs(init) + [input])[dropped..] == PushedInputs(init)[dropped..] + [input];
      case AckTick(tick) =>
        var w := RunActions(init);
        var drained := Clamp(w.LastTick() - tick, |w.inputs|);
        assert PushedInputs(init)[dropped..][drained..] == PushedInputs(init)[dropped + drained..];
        dropped := dropped + drained;
    }
  }
}

/** simulator/cyclic.py over simulator/bus.py: broadcasts from the firing of a schedule
    to the frames on the wire. */
module Broadcast {
  import opened Bytes
  import opened Bus
  import Collect

  /** The frames of one firing; an encoder without a value and a payload that cannot
      be segmented send nothing. */
  function FiredFrames(did: int, payload: Option<seq<byte>>): seq<Frame> {
    match payload
    case None => []
    case Some(p) =>
      match Collect.Segment(did, p)
      case Raised => []
      case Ok(frames) => frames
  }

  class CyclicTask {
    const txId: int
    const bus: CANBus

    constructor (txId: int, bus: CANBus)
      ensures this.txId == txId && this.bus == bus
    {
      this.txId, this.bus := txId, bus;
    }

    /** `_send`: no put on the unbounded queue suspends, so the frames of one firing
        stay together. */
    method Send(did: int, payload: Option<seq<byte>>)
      modifies bus
      ensures bus.View() == Enqueued(old(bus.View()), Tagged(txId, FiredFrames(did, payload)))
    {
      var frames: seq<Frame> := [];
      if payload.Some? {
        var segmented := Collect.SegmentCollect(did, payload.value);
        if segmented.Ok? {
          frames := segmented.value;
        }
      }
      assert frames == FiredFrames(did, payload);
      SendAll(frames);
    }

    method SendAll(frames: seq<Frame>)
      modifies bus
      ensures bus.View() == Enqueued(old(bus.View()), Tagged(txId, frames))
    {
      ghost var before, all := bus.View(), Tagged(txId, frames);
      assert Enqueued(before, []) == before;
      for i := 0 to |frames|
        invariant bus.View() == Enqueued(before, all[..i])
      {
        bus.Send(txId, frames[i]);
        EnqueuedTwice(before, all[..i], [Sent(txId, frames[i])]);
        assert all[..i + 1] == all[..i] + [Sent(txId, frames[i])];
      }
      assert all[..|frames|] == all;
    }
  }

  lemma EnqueuedTwice(b: BusState, x: seq<Sent>, y: seq<Sent>)
    ensures Enqueued(Enqueued(b, x), y) == Enqueued(b, x + y)
  {
    assert b.queue + x + y == b.queue + (x + y) && b.enqueued + x + y == b.enqueued + (x + y);
  }

  // ----- Schedules -----------------------------------------------------------

  datatype Event =
    | Fire(id: int, did: int, payload: Option<seq<byte>>)  // a cyclic message comes due
    | Put(sent: Sent)                                      // any other sender of the bus
    | Turn(answers: Answers)                               // the transmit loop

  function Next(b: BusState, e: Event): BusState {
    match e
    case Fire(id, did, payload) => Enqueued(b, Tagged(id, FiredFrames(did, payload)))
    case Put(sent) => Enqueued(b, [sent])
    case Turn(answers) => Turned(b, answers)
  }

  function Run(evs: seq<Event>): BusState {
    if evs == [] then EmptyBus else Next(Run(evs[..|evs| - 1]), evs[|evs| - 1])
  }

  /** What has been enqueued is what the loop has dealt with and what still waits; the
      wire holds some of the former, in order and each at most once. */
  ghost predicate InOrder(b: BusState) {
    && |b.queue| <= |b.enqueued|
    && b.queue == b.enqueued[|b.enqueued| - |b.queue|..]
    && Subsequence(b.wire, b.enqueued[..|b.enqueued| - |b.queue|])
  }

  lemma EnqueuedInOrder(b: BusState, more: seq<Sent>)
    requires InOrder(b)
    ensures InOrder(Enqueued(b, more))
  {
    var n := |b.enqueued| - |b.queue|;
    assert (b.enqueued + more)[..n] == b.enqueued[..n];
    assert (b.enqueued + more)[n..] == b.queue + more;
  }

  lemma TurnedInOrder(b: BusState, answers: Answers)
    requires InOrder(b)
    ensures InOrder(Turned(b, answers))
  {
    if b.queue != [] {
      var n := |b.enqueued| - |b.queue|;
      assert b.enqueued[n] == b.queue[0];
      assert b.enqueued[..n + 1] == b.enqueued[..n] + [b.queue[0]];
      assert b.enqueued[n + 1..] == b.queue[1..];
      SubsequenceAppend(b.wire, b.enqueued[..n], if GoesOut(answers) then [b.queue[0]] else [], [b.queue[0]]);
    }
  }

  lemma NextInOrder(b: BusState, e: Event)
    requires InOrder(b)
    ensures InOrder(Next(b, e))
  {
    match e {
      case Fire(id, did, payload) => EnqueuedInOrder(b, Tagged(id, FiredFrames(did, payload)));
      case Put(sent) => EnqueuedInOrder(b, [sent]);
      case Turn(answers) => TurnedInOrder(b, answers);
    }
  }

  /** For every schedule and every answer of the interface, what the transmit loop has
      dealt with is a prefix of what was enqueued and the wire holds a subsequence of it. */
  lemma {:induction false} WireKeepsOrder(evs: seq<Event>)
    ensures InOrder(Run(evs))
  {
    if evs != [] {
      WireKeepsOrder(evs[..|evs| - 1]);
      NextInOrder(Run(evs[..|evs| - 1]), evs[|evs| - 1]);
    }
  }

  /** No refused frame blocks the ones behind it: each turn of the loop takes one off the
      queue, whatever the interface answers. */
  lemma {:induction false} QueueDrains(evs: seq<Event>, turns: seq<Event>)
    requires forall i | 0 <= i < |turns| :: turns[i].Turn?
    ensures |Run(evs + turns).queue| == Max(0, |Run(evs).queue| - |turns|)
  {
    if turns == [] {
      assert evs + turns == evs;
    } else {
      ConcatInit(evs, turns);
      QueueDrains(evs, turns[..|turns| - 1]);
    }
  }

  // ----- End to end ----------------------------------------------------------

  /** Only cyclic firings use the CAN-ID. */
  predicate Dedicated(evs: seq<Event>, id: int) {
    forall i | 0 <= i < |evs| :: evs[i].Put? ==> evs[i].sent.id != id
  }

  predicate NothingDropped(evs: seq<Event>) {
    forall i | 0 <= i < |evs| :: evs[i].Turn? ==> GoesOut(evs[i].answers)
  }

  function FiredBy(e: Event, id: int): seq<Collect.Sendable> {
    if e.Fire? && e.id == id && e.payload.Some? && 1 <= |e.payload.value| <= 255
    then [Collect.Message(e.did % 0x10000, e.payload.value)] else []
  }

  /** The messages fired on a CAN-ID, in firing order. */
  function Fired(evs: seq<Event>, id: int): seq<Collect.Sendable> {
    if evs == [] then [] else Fired(evs[..|evs| - 1], id) + FiredBy(evs[|evs| - 1], id)
  }

  lemma FiringStreams(e: Event, id: int)
    requires e.Fire? && e.id == id
    ensures FiredFrames(e.did, e.payload) == Collect.StreamOf(FiredBy(e, id))
  {
    if FiredBy(e, id) != [] {
      var m := FiredBy(e, id)[0];
      Collect.SixteenBits(e.did, m.payload);
      Collect.StreamOne(m);
    }
  }

  /** All that is ever enqueued on a dedicated CAN-ID are the frames of the fired messages. */
  lemma {:induction false} EnqueuedIsStream(evs: seq<Event>, id: int)
    requires Dedicated(evs, id)
    ensures OnId(Run(evs).enqueued, id) == Collect.StreamOf(Fired(evs, id))
  {
    if evs != [] {
      var init, e := evs[..|evs| - 1], evs[|evs| - 1];
      var b := Run(init);
      EnqueuedIsStream(init, id);
      if e.Fire? && e.id == id {
        TaggedOnId(b.enqueued, e.id, FiredFrames(e.did, e.payload));
        FiringStreams(e, id);
        Collect.StreamMore(Fired(init, id), FiredBy(e, id));
      } else {
        assert Fired(evs, id) == Fired(init, id);
        if e.Fire? {
          TaggedOnId(b.enqueued, e.id, FiredFrames(e.did, e.payload));
        } else if e.Put? {
          OtherIdUnseen(b.enqueued, e.sent, id);
        }
      }
    }
  }

  lemma OtherIdUnseen(tx: seq<Sent>, sent: Sent, id: int)
    requires sent.id != id
    ensures OnId(tx + [sent], id) == OnId(tx, id)
  {
    assert (tx + [sent])[..|tx|] == tx;
  }

  lemma EnqueuedSplit(b: BusState, more: seq<Sent>)
    requires b.enqueued == b.wire + b.queue
    ensures var b' := Enqueued(b, more); b'.enqueued == b'.wire + b'.queue
  {
  }

  lemma NextWireAndQueue(b: BusState, e: Event)
    requires b.enqueued == b.wire + b.queue && (e.Turn? ==> GoesOut(e.answers))
    ensures Next(b, e).enqueued == Next(b, e).wire + Next(b, e).queue
  {
    match e {
      case Fire(id, did, payload) => EnqueuedSplit(b, Tagged(id, FiredFrames(did, payload)));
      case Put(sent) => EnqueuedSplit(b, [sent]);
      case Turn(_) =>
        if b.queue != [] {
          assert b.queue == [b.queue[0]] + b.queue[1..];
        }
    }
  }

  lemma {:induction false} WireAndQueue(evs: seq<Event>)
    requires NothingDropped(evs)
    ensures Run(evs).enqueued == Run(evs).wire + Run(evs).queue
  {
    if evs != [] {
      WireAndQueue(evs[..|evs| - 1]);
      NextWireAndQueue(Run(evs[..|evs| - 1]), evs[|evs| - 1]);
    }
  }

  /** If nothing is dropped, a listener on a dedicated CAN-ID decodes the fired
      messages whole and in firing order: those sent so far at any time, and all of
      them once the queue is empty. */
  lemma BroadcastEndToEnd(evs: seq<Event>, id: int)
    requires Dedicated(evs, id) && NothingDropped(evs)
    ensures var heard := Collect.Decode(Collect.Listening, OnId(Run(evs).wire, id));
      && heard <= Fired(evs, id)
      && (Run(evs).queue == [] ==> heard == Fired(evs, id))
  {
    var b := Run(evs);
    EnqueuedIsStream(evs, id);
    Collect.SelfDelimiting(Fired(evs, id));
    WireAndQueue(evs);
    OnIdConcat(b.wire, b.queue, id);
    Collect.DecodeConcat(Collect.Listening, OnId(b.wire, id), OnId(b.queue, id));
    if b.queue == [] {
      assert b.wire + b.queue == b.wire;
    }
  }
}

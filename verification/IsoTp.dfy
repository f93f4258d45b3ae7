/** simulator/protocol/isotp.py: segmentation and reassembly of ISO-TP messages
    (sections 9.6.2 to 9.6.5 of ISO 15765-2:2016). */
module IsoTp {
  import opened Bytes

  const PADDING: byte := 0xCC
  const MAX_PAYLOAD: nat := 4095

  // ----- Frames --------------------------------------------------------------

  function FrameType(f: Frame): nat { f[0] / 16 }

  function LowNibble(f: Frame): nat { f[0] % 16 }

  /** The 12-bit length field of a First Frame. */
  function AnnouncedLength(f: Frame): nat { LowNibble(f) * 256 + f[1] }

  predicate IsCf(f: Frame) { FrameType(f) == 2 }

  predicate AllCf(fs: seq<Frame>) { forall i | 0 <= i < |fs| :: IsCf(fs[i]) }

  function Pad(data: seq<byte>): (f: Frame)
    requires |data| <= 8
    ensures f[..|data|] == data
    ensures forall i | |data| <= i < 8 :: f[i] == PADDING
  {
    data + Repeat(PADDING, 8 - |data|)
  }

  /** ContinueToSend, block size 0, separation time 0, padded with 0xCC. */
  const FLOW_CONTROL: Frame := [0x30, 0x00, 0x00, 0xCC, 0xCC, 0xCC, 0xCC, 0xCC]

  // ----- Segmentation --------------------------------------------------------

  /** The number of 7-byte Consecutive Frames that `n` bytes take. */
  function CfCount(n: nat): nat { (n + 6) / 7 }

  function SingleFrame(p: seq<byte>): Frame
    requires |p| <= 7
  {
    Pad([|p|] + p)
  }

  function FirstFrame(p: seq<byte>): Frame
    requires 8 <= |p| <= MAX_PAYLOAD
  {
    [0x10 + |p| / 256, |p| % 256] + p[..6]
  }

  /** The Consecutive Frame number `i` (from 0) of `p`. */
  function ConsecutiveFrame(p: seq<byte>, i: nat): (f: Frame)
    ensures f[0] == 0x20 + (1 + i) % 16
  {
    Pad([0x20 + (1 + i) % 16] + Slice(p, 6 + 7 * i, 13 + 7 * i))
  }

  function ConsecutiveFrames(p: seq<byte>): (cs: seq<Frame>)
    requires 8 <= |p|
    ensures |cs| == CfCount(|p| - 6)
    ensures forall i | 0 <= i < |cs| :: cs[i] == ConsecutiveFrame(p, i)
  {
    seq(CfCount(|p| - 6), i requires 0 <= i => ConsecutiveFrame(p, i))
  }

  /** The frames of one message, in closed form. */
  function Frames(p: seq<byte>): (fs: seq<Frame>)
    requires |p| <= MAX_PAYLOAD
    ensures |fs| >= 1
    ensures |fs| == 1 <==> |p| <= 7
  {
    if |p| <= 7 then [SingleFrame(p)] else [FirstFrame(p)] + ConsecutiveFrames(p)
  }

  function Segment(p: seq<byte>): Result<seq<Frame>> {
    if |p| <= MAX_PAYLOAD then Ok(Frames(p)) else Raised
  }

  /** What is left of the payload once `i` Consecutive Frames are cut. */
  ghost function Rest(p: seq<byte>, i: nat): seq<byte> {
    p[Min(6 + 7 * i, |p|)..]
  }

  lemma RestEmpty(p: seq<byte>, i: nat)
    requires 8 <= |p|
    ensures Rest(p, i) == [] <==> i >= CfCount(|p| - 6)
  {
  }

  /** One chunk off what is left. */
  lemma CutChunk(p: seq<byte>, i: nat)
    ensures Slice(Rest(p, i), 0, 7) == Slice(p, 6 + 7 * i, 13 + 7 * i)
    ensures Rest(p, i)[|Slice(Rest(p, i), 0, 7)|..] == Rest(p, i + 1)
  {
    CutOff(p, 6 + 7 * i, 7);
  }

  lemma CutOne(p: seq<byte>, i: nat, rest: seq<byte>, sn: nat)
    requires rest == Rest(p, i) && sn == (1 + i) % 16
    ensures Pad([0x20 + sn % 16] + Slice(rest, 0, 7)) == ConsecutiveFrame(p, i)
    ensures rest[|Slice(rest, 0, 7)|..] == Rest(p, i + 1)
    ensures (sn + 1) % 16 == (1 + (i + 1)) % 16
  {
    CutChunk(p, i);
  }

  /** `segment`: the loop that cuts the payload, with its running sequence number. */
  method SegmentPayload(payload: seq<byte>) returns (r: Result<seq<Frame>>)
    ensures r == Segment(payload)
  {
    var length := |payload|;
    if length <= 7 {
      var single := Pad([length] + payload);
      return Ok([single]);
    }
    if length > 0xFFF {
      return Raised;
    }
    var first := Pad([0x10 + (length / 256) % 16, length % 256] + payload[..6]);
    assert first == FirstFrame(payload);
    var cfs := CutConsecutive(payload);
    return Ok([first] + cfs);
  }

  method CutConsecutive(payload: seq<byte>) returns (cfs: seq<Frame>)
    requires 8 <= |payload|
    ensures cfs == ConsecutiveFrames(payload)
  {
    cfs := [];
    var remaining := payload[6..];
    var sn := 1;
    ghost var count := CfCount(|payload| - 6);
    RestEmpty(payload, 0);
    while remaining != []
      invariant |cfs| <= count && (remaining == [] ==> |cfs| == count)
      invariant remaining == Rest(payload, |cfs|) && sn == (1 + |cfs|) % 16
      invariant forall i | 0 <= i < |cfs| :: cfs[i] == ConsecutiveFrame(payload, i)
      decreases count - |cfs|
    {
      CutOne(payload, |cfs|, remaining, sn);
      RestEmpty(payload, |cfs|);
      RestEmpty(payload, |cfs| + 1);
      var chunk := Slice(remaining, 0, 7);
      remaining := remaining[|chunk|..];
      cfs := cfs + [Pad([0x20 + sn % 16] + chunk)];
      sn := (sn + 1) % 16;
    }
  }

  // ----- Reassembly ----------------------------------------------------------

  /** The four fields of an `ISOTPAssembler`. */
  datatype Receiver = Receiver(expected: nat, buffer: seq<byte>, nextSeq: nat, active: bool) {

    /** The class invariant; `ReachableIff` in `IsoTpTheorems` shows that it
        describes exactly the states an assembler can be in. */
    ghost predicate Valid() {
      if active then
        && 8 <= expected <= MAX_PAYLOAD
        && 6 <= |buffer| < expected
        && (|buffer| - 6) % 7 == 0
        && nextSeq == (1 + (|buffer| - 6) / 7) % 16
      else
        expected == 0 && buffer == [] && nextSeq == 1
    }

    /** The Consecutive Frames still missing. */
    function Missing(): nat
      requires |buffer| <= expected
    {
      CfCount(expected - |buffer|)
    }
  }

  const Idle := Receiver(0, [], 1, false)

  type State = r: Receiver | r.Valid() witness Idle

  datatype Reaction = Reaction(next: State, payload: Option<seq<byte>>, fc: Option<Frame>)

  function StepSingle(s: State, f: Frame): Reaction {
    var length := LowNibble(f);
    if length == 0 || length > 7 then Reaction(s, None, None)
    else Reaction(Idle, Some(f[1..1 + length]), None)
  }

  function StepFirst(s: State, f: Frame): Reaction {
    var length := AnnouncedLength(f);
    if length < 8 then Reaction(s, None, None)
    else Reaction(Receiver(length, f[2..8], 1, true), None, Some(FLOW_CONTROL))
  }

  /** One more full Consecutive Frame keeps buffer length and counter in step. */
  lemma CountOneMore(n: nat, q: nat)
    requires n % 7 == 0 && q == (1 + n / 7) % 16
    ensures (n + 7) % 7 == 0 && (q + 1) % 16 == (1 + (n + 7) / 7) % 16
  {
  }

  function StepConsecutive(s: State, f: Frame): Reaction {
    if !s.active then Reaction(s, None, None)
    else if LowNibble(f) != s.nextSeq then Reaction(Idle, None, None)
    else
      var buffer := s.buffer + f[1..1 + Min(7, s.expected - |s.buffer|)];
      CountOneMore(|s.buffer| - 6, s.nextSeq);
      if |buffer| >= s.expected then Reaction(Idle, Some(buffer[..s.expected]), None)
      else Reaction(Receiver(s.expected, buffer, (s.nextSeq + 1) % 16, true), None, None)
  }

  /** What `feed` does with one frame. */
  function Step(s: State, f: Frame): (r: Reaction)
    ensures r.payload.Some? ==> 1 <= |r.payload.value| <= MAX_PAYLOAD
    ensures r.payload.Some? ==> r.next == Idle && r.fc == None
  {
    match FrameType(f)
    case 0 => StepSingle(s, f)
    case 1 => StepFirst(s, f)
    case 2 => StepConsecutive(s, f)
    case _ => Reaction(s, None, None)
  }

  /** The state after a whole stream of frames. */
  function After(s: State, fs: seq<Frame>): State
    decreases |fs|
  {
    if fs == [] then s else After(Step(s, fs[0]).next, fs[1..])
  }

  /** The payloads that `feed` returns over a whole stream, in order. */
  function Delivered(s: State, fs: seq<Frame>): seq<seq<byte>>
    decreases |fs|
  {
    if fs == [] then []
    else ToSeq(Step(s, fs[0]).payload) + Delivered(Step(s, fs[0]).next, fs[1..])
  }

  /** `ISOTPAssembler`: every method refines the pure step on the object's state. */
  class ISOTPAssembler {
    var expectedLength: nat
    var buffer: seq<byte>
    var nextSeq: nat
    var active: bool

    ghost function Fields(): Receiver
      reads this
    {
      Receiver(expectedLength, buffer, nextSeq, active)
    }

    ghost predicate Valid()
      reads this
    {
      Fields().Valid()
    }

    ghost function View(): State
      reads this
      requires Valid()
    {
      Fields()
    }

    constructor ()
      ensures Valid() && View() == Idle
    {
      expectedLength, buffer, nextSeq, active := 0, [], 1, false;
    }

    method Reset()
      modifies this
      ensures Valid() && View() == Idle
    {
      expectedLength, buffer, nextSeq, active := 0, [], 1, false;
    }

    method Feed(data: Frame) returns (payload: Option<seq<byte>>, fc: Option<Frame>)
      requires Valid()
      modifies this
      ensures Valid()
      ensures Reaction(View(), payload, fc) == Step(old(View()), data)
    {
      var frameType := data[0] / 16;
      if frameType == 0 {
        payload, fc := HandleSf(data);
      } else if frameType == 1 {
        payload, fc := HandleFf(data);
      } else if frameType == 2 {
        payload, fc := HandleCf(data);
      } else {
        payload, fc := None, None;
      }
    }

    method HandleSf(data: Frame) returns (payload: Option<seq<byte>>, fc: Option<Frame>)
      requires Valid()
      modifies this
      ensures Valid()
      ensures Reaction(View(), payload, fc) == StepSingle(old(View()), data)
    {
      var length := data[0] % 16;
      if length == 0 || length > 7 {
        return None, None;
      }
      Reset();
      return Some(data[1..1 + length]), None;
    }

    method HandleFf(data: Frame) returns (payload: Option<seq<byte>>, fc: Option<Frame>)
      requires Valid()
      modifies this
      ensures Valid()
      ensures Reaction(View(), payload, fc) == StepFirst(old(View()), data)
    {
      var high: nat := data[0] % 16;
      var length := high * 256 + data[1];
      if length < 8 {
        return None, None;
      }
      Reset();
      expectedLength := length;
      buffer := buffer + data[2..8];
      nextSeq := 1;
      active := true;
      var flowControl := Pad([0x30, 0x00, 0x00]);
      assert flowControl == FLOW_CONTROL;
      assert Fields() == Receiver(length, data[2..8], 1, true);
      return None, Some(flowControl);
    }

    method HandleCf(data: Frame) returns (payload: Option<seq<byte>>, fc: Option<Frame>)
      requires Valid()
      modifies this
      ensures Valid()
      ensures Reaction(View(), payload, fc) == StepConsecutive(old(View()), data)
    {
      if !active {
        return None, None;
      }
      if data[0] % 16 != nextSeq {
        Reset();
        return None, None;
      }
      CountOneMore(|buffer| - 6, nextSeq);
      var remaining := expectedLength - |buffer|;
      buffer := buffer + data[1..1 + Min(7, remaining)];
      nextSeq := (nextSeq + 1) % 16;
      if |buffer| >= expectedLength {
        var done := buffer[..expectedLength];
        Reset();
        return Some(done), None;
      }
      return None, None;
    }
  }
}

/** simulator/doip.py and the DoIP entry of simulator/device.py: the generic header, the
    session state and the second, lenient reassembly (ISO 13400-2). */
module Doip {
  import opened Bytes
  import opened IsoTp
  import opened Faults
  import opened DoipLenient
  import opened Handlers

  // ----- A device behind the server ------------------------------------------

  datatype Target = Target(protected: set<int>, store: Store)

  /** `handle_uds_payload`: the reply, or the exception of `segment`. */
  function HandleUds(t: Target, req: seq<byte>, fault: Fault): (r: (Result<Option<seq<byte>>>, Target))
    ensures r.0.Ok? && r.0.value.Some? ==> |r.0.value.value| <= MAX_PAYLOAD
  {
    var h := UdsHandle(t.protected, req, t.store);
    var t' := t.(store := h.store);
    match h.response
    case None => (Ok(None), t')
    case Some(r) =>
      match Segment(r)
      case Raised => (Raised, t')
      case Ok(frames) =>
        (Ok(Some(Lenient(Apply(frames, Drawn(fault, |Frames(r)|))))), t')
  }

  /** Fault-free, the reply is what the handler answers. */
  lemma HandleUdsIsHandler(t: Target, req: seq<byte>)
    ensures var h := UdsHandle(t.protected, req, t.store);
      HandleUds(t, req, NoFault) ==
        (if h.response.Some? && |h.response.value| > MAX_PAYLOAD then Raised else Ok(h.response),
         t.(store := h.store))
  {
    var h := UdsHandle(t.protected, req, t.store);
    if h.response.Some? && |h.response.value| <= MAX_PAYLOAD {
      LenientIdentity(h.response.value);
    }
  }

  /** `handle_uds_payload` step by step. */
  method HandleUdsPayload(t: Target, req: seq<byte>, fault: Fault)
    returns (reply: Result<Option<seq<byte>>>, after: Target)
    ensures (reply, after) == HandleUds(t, req, fault)
  {
    var handler := new UDSHandler(t.protected);
    var store := new DatapointStore(t.store);
    var response := handler.Handle(req, store);
    after := Target(t.protected, store.data);
    if response == None {
      return Ok(None), after;
    }
    var frames := SegmentPayload(response.value);
    if frames.Raised? {
      return Raised, after;
    }
    var drawn := if Possible(fault, |frames.value|) then fault else NoFault;
    var faulted := Inject(frames.value, drawn);
    var payload := Reassemble(faulted);
    return Ok(Some(payload)), after;
  }

  // ----- Generic header ------------------------------------------------------

  datatype DoipFrame = DoipFrame(version: byte, inverse: byte, kind: nat, payload: seq<byte>) {
    predicate Printable() { kind < 0x1_0000 && |payload| < 0x1_0000_0000 }
  }

  const VERSION: byte := 0x02
  const VERSION_INV: byte := 0xFD
  const ROUTING_REQUEST: nat := 0x0005
  const ROUTING_RESPONSE: nat := 0x0006
  const DIAGNOSTIC: nat := 0x8001
  const DIAGNOSTIC_ACK: nat := 0x8002

  function U16(n: nat): (b: seq<byte>)
    requires n < 0x1_0000
    ensures |b| == 2
  {
    [n / 256, n % 256]
  }

  function U32(n: nat): (b: seq<byte>)
    requires n < 0x1_0000_0000
    ensures |b| == 4
  {
    U16(n / 0x1_0000) + U16(n % 0x1_0000)
  }

  function Read16(b: seq<byte>): (n: nat)
    requires |b| >= 2
    ensures n < 0x1_0000
  {
    Word(b[0], b[1])
  }

  function Read32(b: seq<byte>): (n: nat)
    requires |b| >= 4
    ensures n < 0x1_0000_0000
  {
    Read16(b) * 0x1_0000 + Read16(b[2..])
  }

  function Print(f: DoipFrame): seq<byte>
    requires f.Printable()
  {
    [f.version, f.inverse] + U16(f.kind) + U32(|f.payload|) + f.payload
  }

  /** `readexactly` fails on the header or on the payload. */
  predicate Incomplete(b: seq<byte>) { |b| < 8 || |b| - 8 < Read32(b[4..8]) }

  function Parse1(b: seq<byte>): (f: DoipFrame)
    requires !Incomplete(b)
    ensures f.Printable() && 8 + |f.payload| <= |b|
  {
    DoipFrame(b[0], b[1], Read16(b[2..4]), b[8..8 + Read32(b[4..8])])
  }

  /** The whole frames at the front of a byte stream. */
  function Parse(b: seq<byte>): seq<DoipFrame>
    decreases |b|
  {
    if Incomplete(b) then [] else [Parse1(b)] + Parse(b[8 + |Parse1(b).payload|..])
  }

  type WireFrame = f: DoipFrame | f.Printable() witness DoipFrame(0, 0, 0, [])

  function PrintAll(fs: seq<WireFrame>): seq<byte> {
    if fs == [] then [] else Print(fs[0]) + PrintAll(fs[1..])
  }

  lemma ParsePrint1(f: WireFrame, rest: seq<byte>)
    ensures !Incomplete(Print(f) + rest) && Parse1(Print(f) + rest) == f
    ensures (Print(f) + rest)[8 + |f.payload|..] == rest
  {
    var b := Print(f) + rest;
    assert b[2..4] == U16(f.kind) && b[4..8] == U32(|f.payload|);
    assert Read32(U32(|f.payload|)) == |f.payload| by {
      assert U32(|f.payload|)[2..] == U16(|f.payload| % 0x1_0000);
    }
    assert b[8..8 + |f.payload|] == f.payload;
  }

  /** Printing is inverted by parsing, whatever incomplete frame follows. */
  lemma {:induction false} ParsePrint(fs: seq<WireFrame>, tail: seq<byte>)
    requires Incomplete(tail)
    ensures Parse(PrintAll(fs) + tail) == fs
  {
    if fs == [] {
      assert PrintAll(fs) + tail == tail;
    } else {
      var rest := PrintAll(fs[1..]) + tail;
      assert PrintAll(fs) + tail == Print(fs[0]) + rest;
      ParsePrint1(fs[0], rest);
      ParsePrint(fs[1..], tail);
    }
  }

  lemma {:induction false} PrintAllConcat(a: seq<WireFrame>, b: seq<WireFrame>)
    ensures PrintAll(a + b) == PrintAll(a) + PrintAll(b)
  {
    if a == [] {
      assert a + b == b;
    } else {
      assert (a + b)[1..] == a[1..] + b;
      PrintAllConcat(a[1..], b);
    }
  }

  /** The eight bytes of the header, numbers with the high byte first. */
  lemma PrintedHeader(f: WireFrame)
    ensures var b := Print(f);
      && |b| == 8 + |f.payload| && b[0] == f.version && b[1] == f.inverse
      && f.kind == b[2] as int * 0x100 + b[3]
      && |f.payload| == b[4] as int * 0x100_0000 + b[5] as int * 0x1_0000 + b[6] as int * 0x100 + b[7]
      && b[8..] == f.payload
  {
    ParsePrint1(f, []);
    assert Print(f) + [] == Print(f);
    assert Print(f)[4..8] == U32(|f.payload|);
    assert U32(|f.payload|) == U16(|f.payload| / 0x1_0000) + U16(|f.payload| % 0x1_0000);
  }

  // ----- Frame builders ------------------------------------------------------

  function Built(kind: nat, payload: seq<byte>): WireFrame
    requires kind < 0x1_0000 && |payload| < 0x1_0000_0000
  {
    DoipFrame(VERSION, VERSION_INV, kind, payload)
  }

  function RoutingResponse(client: nat): WireFrame
    requires client < 0x1_0000
  {
    Built(ROUTING_RESPONSE, U16(client) + U16(1) + [0x10, 0, 0, 0, 0])
  }

  function DiagnosticAck(source: nat, target: nat, code: byte): WireFrame
    requires source < 0x1_0000 && target < 0x1_0000
  {
    Built(DIAGNOSTIC_ACK, U16(source) + U16(target) + [code])
  }

  function DiagnosticMessage(source: nat, target: nat, uds: seq<byte>): WireFrame
    requires source < 0x1_0000 && target < 0x1_0000 && |uds| <= MAX_PAYLOAD
  {
    Built(DIAGNOSTIC, U16(source) + U16(target) + uds)
  }

  // ----- The session on frames -----------------------------------------------

  datatype Session = SessionState(activated: bool, devices: map<int, Target>)

  datatype Turn = Turn(out: seq<WireFrame>, next: Session, ended: bool)

  predicate InSync(f: DoipFrame) { f.version == VERSION && f.inverse == VERSION_INV }

  /** The ACK, and behind it the reply of the device if there is one. */
  function Answered(s: Session, source: nat, target: nat, reply: Result<Option<seq<byte>>>, t: Target): Turn
    requires source < 0x1_0000 && target < 0x1_0000
    requires reply.Ok? && reply.value.Some? ==> |reply.value.value| <= MAX_PAYLOAD
  {
    var next := s.(devices := s.devices[target := t]);
    var ack := DiagnosticAck(target, source, 0x00);
    match reply
    case Raised => Turn([ack], next, true)
    case Ok(None) => Turn([ack], next, false)
    case Ok(Some(r)) => Turn([ack, DiagnosticMessage(target, source, r)], next, false)
  }

  /** A diagnostic message to a known device. */
  function Diagnose(s: Session, source: nat, target: nat, uds: seq<byte>, fault: Fault): Turn
    requires source < 0x1_0000 && target < 0x1_0000 && target in s.devices
  {
    var r := HandleUds(s.devices[target], uds, fault);
    Answered(s, source, target, r.0, r.1)
  }

  /** One turn of the session loop. */
  function Handle(s: Session, f: DoipFrame, fault: Fault): Turn {
    if !InSync(f) then Turn([], s, false)
    else if f.kind == ROUTING_REQUEST then
      var client := if |f.payload| >= 2 then Read16(f.payload) else 0x0E00;
      Turn([RoutingResponse(client)], s.(activated := true), false)
    else if f.kind == DIAGNOSTIC && s.activated && |f.payload| >= 5 then
      var source, target := Read16(f.payload), Read16(f.payload[2..]);
      if target !in s.devices then Turn([DiagnosticAck(target, source, 0x03)], s, false)
      else Diagnose(s, source, target, f.payload[4..], fault)
    else Turn([], s, false)
  }

  /** All server frames of a session; `draw` gives the fault for each frame read. */
  function Serve(s: Session, fs: seq<DoipFrame>, draw: nat -> Fault, n: nat): seq<WireFrame>
    decreases |fs|
  {
    if fs == [] then []
    else
      var t := Handle(s, fs[0], draw(n));
      t.out + if t.ended then [] else Serve(t.next, fs[1..], draw, n + 1)
  }

  // ----- The session on bytes ------------------------------------------------

  /** One frame of the stream. */
  lemma ServeStep(s: Session, b: seq<byte>, draw: nat -> Fault, n: nat)
    requires !Incomplete(b)
    ensures var t := Handle(s, Parse1(b), draw(n));
      Serve(s, Parse(b), draw, n)
        == t.out + if t.ended then [] else Serve(t.next, Parse(b[8 + |Parse1(b).payload|..]), draw, n + 1)
  {
    var rest := Parse(b[8 + |Parse1(b).payload|..]);
    assert Parse(b) == [Parse1(b)] + rest && ([Parse1(b)] + rest)[1..] == rest;
  }

  /** `_session`: header, payload or drain, reaction, until the stream breaks off. */
  class DoIPServer {
    var devices: map<int, Target>

    constructor (devices: map<int, Target>)
      ensures this.devices == devices
    {
      this.devices := devices;
    }

    /** The body of the session loop for one frame. */
    method HandleFrame(activated: bool, f: DoipFrame, fault: Fault)
      returns (out: seq<WireFrame>, nowActivated: bool, ended: bool)
      modifies this
      ensures Turn(out, SessionState(nowActivated, devices), ended)
        == Handle(SessionState(activated, old(devices)), f, fault)
    {
      out, nowActivated, ended := [], activated, false;
      if f.version != VERSION || f.inverse != VERSION_INV {
        return;
      }
      if f.kind == ROUTING_REQUEST {
        nowActivated := true;
        var client := if |f.payload| >= 2 then Read16(f.payload) else 0x0E00;
        out := [RoutingResponse(client)];
      } else if f.kind == DIAGNOSTIC {
        if !activated || |f.payload| < 5 {
          return;
        }
        var source, target := Read16(f.payload), Read16(f.payload[2..]);
        if target !in devices {
          out := [DiagnosticAck(target, source, 0x03)];
          return;
        }
        out, ended := Dispatch(activated, source, target, f.payload[4..], fault);
      }
    }

    /** The ACK goes out first, then the device is asked and its reply, if any, follows. */
    method Dispatch(ghost activated: bool, source: nat, target: nat, uds: seq<byte>, fault: Fault)
      returns (out: seq<WireFrame>, ended: bool)
      requires source < 0x1_0000 && target < 0x1_0000 && target in devices
      modifies this
      ensures Turn(out, SessionState(activated, devices), ended)
        == Diagnose(SessionState(activated, old(devices)), source, target, uds, fault)
    {
      out, ended := [DiagnosticAck(target, source, 0x00)], false;
      var reply, after := HandleUdsPayload(devices[target], uds, fault);
      assert Diagnose(SessionState(activated, devices), source, target, uds, fault)
          == Answered(SessionState(activated, devices), source, target, reply, after);
      devices := devices[target := after];
      if reply.Raised? {
        ended := true;
      } else if reply.value.Some? {
        out := out + [DiagnosticMessage(target, source, reply.value.value)];
      }
    }

    method Session(input: seq<byte>, draw: nat -> Fault) returns (output: seq<byte>)
      modifies this
      ensures output == PrintAll(Serve(SessionState(false, old(devices)), Parse(input), draw, 0))
    {
      output := [];
      var reader, n, activated := input, 0, false;
      ghost var all := Serve(SessionState(false, devices), Parse(input), draw, 0);
      ghost var sent: seq<WireFrame> := [];
      while !Incomplete(reader)
        invariant output == PrintAll(sent)
        invariant all == sent + Serve(SessionState(activated, devices), Parse(reader), draw, n)
        decreases |reader|
      {
        var f := Parse1(reader);
        var rest := reader[8 + |f.payload|..];
        ServeStep(SessionState(activated, devices), reader, draw, n);
        var out, nowActivated, ended := HandleFrame(activated, f, draw(n));
        activated := nowActivated;
        PrintAllConcat(sent, out);
        Regroup(sent, out, if ended then [] else Serve(SessionState(activated, devices), Parse(rest), draw, n + 1));
        output := output + PrintAll(out);
        sent := sent + out;
        if ended {
          assert all == sent + [] == sent;
          return;
        }
        reader, n := rest, n + 1;
      }
      assert Serve(SessionState(activated, devices), Parse(reader), draw, n) == [];
      assert all == sent + [] == sent;
    }
  }

  /** The bytes of a session: what the method above computes, for any input. */
  function SessionBytes(s: Session, input: seq<byte>, draw: nat -> Fault): seq<byte> {
    PrintAll(Serve(s, Parse(input), draw, 0))
  }

  /** The byte session refines the machine on frames: fed the printed client frames and
      whatever incomplete frame comes last, its output parses back to exactly the
      machine's frames. */
  lemma BytesRefineFrames(s: Session, fs: seq<WireFrame>, tail: seq<byte>, draw: nat -> Fault,
                          input: seq<byte>, outs: seq<WireFrame>)
    requires Incomplete(tail) && input == PrintAll(fs) + tail
    requires outs == Serve(s, fs, draw, 0)
    ensures Parse(SessionBytes(s, input, draw)) == outs
  {
    ParsePrint(fs, tail);
    ParsePrint(outs, []);
    assert PrintAll(outs) + [] == PrintAll(outs);
  }

  // ----- The shape of a session ----------------------------------------------

  /** Version 2 of the protocol, and its inverse. */
  predicate SpeaksV2(f: DoipFrame) { f.version == 0x02 && f.inverse == 0xFD }

  predicate Activates(f: DoipFrame) { SpeaksV2(f) && f.kind == 0x0005 }

  predicate Asks(f: DoipFrame) { SpeaksV2(f) && f.kind == 0x8001 && |f.payload| >= 5 }

  /** `o` goes back the way `f` came: source and target exchanged. */
  predicate Returns(o: DoipFrame, f: DoipFrame, kind: nat)
    requires |f.payload| >= 5
  {
    SpeaksV2(o) && o.kind == kind && |o.payload| >= 4
    && o.payload[..2] == f.payload[2..4] && o.payload[2..4] == f.payload[..2]
  }

  /** `o` accepts the activation `f` and echoes its logical address. */
  predicate Accepts(o: DoipFrame, f: DoipFrame) {
    && SpeaksV2(o) && o.kind == 0x0006
    && o.payload == (if |f.payload| >= 2 then f.payload[..2] else [0x0E, 0x00]) + [0, 1, 0x10, 0, 0, 0, 0]
  }

  /** What the handler of the target answers to the diagnostic message `f`. */
  function Asked(s: Session, f: DoipFrame): Handled
    requires Asks(f) && TargetOf(f) in s.devices
  {
    var t := s.devices[TargetOf(f)];
    UdsHandle(t.protected, f.payload[4..], t.store)
  }

  function TargetOf(f: DoipFrame): nat
    requires Asks(f)
  {
    var hi: nat := f.payload[2];
    hi * 256 + f.payload[3]
  }

  /** The session as the message `f` leaves it, by direct calls of the handlers. */
  function Effect(s: Session, f: DoipFrame): Session {
    if Activates(f) then s.(activated := true)
    else if Asks(f) && s.activated && TargetOf(f) in s.devices then
      s.(devices := s.devices[TargetOf(f) := s.devices[TargetOf(f)].(store := Asked(s, f).store)])
    else s
  }

  /** The message asks a known device for something longer than a response can be. */
  predicate TooMuch(s: Session, f: DoipFrame) {
    && Asks(f) && s.activated && TargetOf(f) in s.devices
    && Asked(s, f).response.Some? && |Asked(s, f).response.value| > MAX_PAYLOAD
  }

  /** How many frames a client is due for `f`: one for an activation, an ACK and a
      response for a well-formed diagnostic message, an ACK alone for an unknown target. */
  function Due(s: Session, f: DoipFrame): nat {
    if Activates(f) then 1
    else if Asks(f) && s.activated then if TargetOf(f) in s.devices then 2 else 1
    else 0
  }

  /** What the client gets: all that is due, but only the ACK for an answer too long. */
  function Given(s: Session, f: DoipFrame): nat {
    if TooMuch(s, f) then 1 else Due(s, f)
  }

  /** `out` are the server frames for `f`: an activation is accepted; the ACK has code 3
      exactly for an unknown target; the response is the handler's answer as the fault and
      the lenient reassembly leave it; everything else gets silence. */
  predicate TurnConforms(s: Session, f: DoipFrame, fault: Fault, out: seq<DoipFrame>) {
    && |out| == Given(s, f)
    && (Activates(f) ==> Accepts(out[0], f))
    && (Asks(f) && s.activated ==>
          && Returns(out[0], f, 0x8002)
          && out[0].payload[4..] == [if TargetOf(f) in s.devices then 0x00 else 0x03]
          && (TargetOf(f) in s.devices && !TooMuch(s, f) ==> Replies(out[1], s, f, fault)))
  }

  /** What a DoIP client gets of the answer `r` under a fault. */
  function LenientReply(r: seq<byte>, fault: Fault): (q: seq<byte>)
    requires 1 <= |r| <= MAX_PAYLOAD
    ensures |q| <= MAX_PAYLOAD
  {
    if Possible(fault, |Frames(r)|) then
      LenientExact(r, fault);
      LenientOutcome(r, fault)
    else r
  }

  /** `o` carries the handler's answer back as the fault leaves it, whole where the fault
      cannot strike. */
  predicate Replies(o: DoipFrame, s: Session, f: DoipFrame, fault: Fault)
    requires Asks(f) && TargetOf(f) in s.devices
  {
    var r := Asked(s, f).response;
    && r.Some? && 1 <= |r.value| <= MAX_PAYLOAD && Returns(o, f, 0x8001)
    && o.payload[4..] == LenientReply(r.value, fault)
  }

  /** `outs` are the server frames for `fs`, turn by turn; only an answer that is too long
      ends the session, right behind its ACK. */
  predicate Conforms(s: Session, fs: seq<DoipFrame>, draw: nat -> Fault, n: nat, outs: seq<DoipFrame>)
    decreases |fs|
  {
    if fs == [] then outs == []
    else
      var k := Given(s, fs[0]);
      && |outs| >= k && TurnConforms(s, fs[0], draw(n), outs[..k])
      && if TooMuch(s, fs[0]) then |outs| == k
         else Conforms(Effect(s, fs[0]), fs[1..], draw, n + 1, outs[k..])
  }

  lemma U16OfRead16(b: seq<byte>)
    requires |b| >= 2
    ensures U16(Read16(b)) == b[..2]
  {
  }

  /** Frames that go back the same way with the same data are the same. */
  lemma SameReturn(a: DoipFrame, b: DoipFrame, f: DoipFrame, kind: nat)
    requires |f.payload| >= 5 && Returns(a, f, kind) && Returns(b, f, kind) && a.payload[4..] == b.payload[4..]
    ensures a == b
  {
    assert a.payload == a.payload[..2] + a.payload[2..4] + a.payload[4..];
    assert b.payload == b.payload[..2] + b.payload[2..4] + b.payload[4..];
  }

  lemma TargetBytes(f: DoipFrame)
    requires Asks(f)
    ensures TargetOf(f) < 0x1_0000 && Read16(f.payload[2..]) == TargetOf(f) && U16(TargetOf(f)) == f.payload[2..4]
  {
    assert f.payload[2..][0] == f.payload[2] && f.payload[2..][1] == f.payload[3];
    U16OfRead16(f.payload[2..]);
    assert f.payload[2..][..2] == f.payload[2..4];
  }

  lemma ThreeParts<T>(a: seq<T>, b: seq<T>, c: seq<T>)
    requires |a| == 2 && |b| == 2
    ensures |a + b + c| == 4 + |c|
    ensures (a + b + c)[..2] == a && (a + b + c)[2..4] == b && (a + b + c)[4..] == c
  {
  }

  /** An exchange of source and target is a return. */
  lemma BuiltReturns(f: DoipFrame, kind: nat, data: seq<byte>)
    requires Asks(f) && kind < 0x1_0000 && |data| < 0x1_0000
    ensures var o := Built(kind, U16(TargetOf(f)) + U16(Read16(f.payload)) + data);
      Returns(o, f, kind) && o.payload[4..] == data
  {
    U16OfRead16(f.payload);
    TargetBytes(f);
    ThreeParts(U16(TargetOf(f)), U16(Read16(f.payload)), data);
  }

  /** Every handler answers a request, with at least three bytes. */
  lemma AskedAnswers(s: Session, f: DoipFrame)
    requires Asks(f) && TargetOf(f) in s.devices
    ensures Asked(s, f).response.Some? && |Asked(s, f).response.value| >= 3
  {
    assert f.payload[4..] != [];
  }

  /** One turn for a message to a known device, in terms of its handler. */
  lemma DiagnoseIs(s: Session, f: DoipFrame, fault: Fault, t: Turn)
    requires Asks(f) && s.activated && !Activates(f) && TargetOf(f) in s.devices && t == Handle(s, f, fault)
    ensures t.next == Effect(s, f) && (t.ended <==> TooMuch(s, f))
    ensures var ack := DiagnosticAck(TargetOf(f), Read16(f.payload), 0x00);
      var r := Asked(s, f).response;
      && r.Some? && |r.value| >= 3
      && t.out == if TooMuch(s, f) then [ack] else [ack, DiagnosticMessage(TargetOf(f), Read16(f.payload),
                     LenientReply(r.value, fault))]
  {
    AskedAnswers(s, f);
    TargetBytes(f);
    HandleUdsReply(s.devices[TargetOf(f)], f.payload[4..], fault);
  }

  /** What the device replies, in terms of its handler. */
  lemma HandleUdsReply(t: Target, req: seq<byte>, fault: Fault)
    requires req != []
    ensures var h := UdsHandle(t.protected, req, t.store);
      && h.response.Some? && h.response.value != []
      && HandleUds(t, req, fault) ==
        (if |h.response.value| > MAX_PAYLOAD then Raised else Ok(Some(LenientReply(h.response.value, fault))),
         t.(store := h.store))
  {
    var r := UdsHandle(t.protected, req, t.store).response.value;
    if |r| <= MAX_PAYLOAD {
      LenientReplyIs(r, fault);
    }
  }

  lemma LenientReplyIs(r: seq<byte>, fault: Fault)
    requires 1 <= |r| <= MAX_PAYLOAD
    ensures Lenient(Apply(Frames(r), Drawn(fault, |Frames(r)|))) == LenientReply(r, fault)
  {
    if Possible(fault, |Frames(r)|) {
      LenientExact(r, fault);
    } else {
      LenientIdentity(r);
    }
  }

  lemma ActivationShape(s: Session, f: DoipFrame, fault: Fault)
    requires Activates(f)
    ensures var t := Handle(s, f, fault);
      |t.out| == 1 && Accepts(t.out[0], f) && t.next == Effect(s, f) && !t.ended
  {
    if |f.payload| >= 2 {
      U16OfRead16(f.payload);
    }
  }

  lemma SameAcceptance(a: DoipFrame, b: DoipFrame, f: DoipFrame)
    requires Accepts(a, f) && Accepts(b, f)
    ensures a == b
  {
  }

  lemma KnownTargetConforms(s: Session, f: DoipFrame, fault: Fault, t: Turn)
    requires Asks(f) && s.activated && TargetOf(f) in s.devices && t == Handle(s, f, fault)
    ensures TurnConforms(s, f, fault, t.out) && t.next == Effect(s, f) && (t.ended <==> TooMuch(s, f))
  {
    DiagnoseIs(s, f, fault, t);
    BuiltReturns(f, DIAGNOSTIC_ACK, [0x00]);
    if !TooMuch(s, f) {
      BuiltReturns(f, DIAGNOSTIC, LenientReply(Asked(s, f).response.value, fault));
    }
  }

  lemma UnknownTargetConforms(s: Session, f: DoipFrame, fault: Fault, t: Turn)
    requires Asks(f) && s.activated && TargetOf(f) !in s.devices && t == Handle(s, f, fault)
    ensures TurnConforms(s, f, fault, t.out) && t.next == Effect(s, f) && !t.ended && !TooMuch(s, f)
  {
    TargetBytes(f);
    BuiltReturns(f, DIAGNOSTIC_ACK, [0x03]);
  }

  lemma TurnIsConform(s: Session, f: DoipFrame, fault: Fault)
    ensures var t := Handle(s, f, fault);
      TurnConforms(s, f, fault, t.out) && t.next == Effect(s, f) && (t.ended <==> TooMuch(s, f))
  {
    if Activates(f) {
      ActivationShape(s, f, fault);
    } else if Asks(f) && s.activated {
      if TargetOf(f) in s.devices {
        KnownTargetConforms(s, f, fault, Handle(s, f, fault));
      } else {
        UnknownTargetConforms(s, f, fault, Handle(s, f, fault));
      }
    }
  }

  lemma TurnIsOnlyOne(s: Session, f: DoipFrame, fault: Fault, a: seq<DoipFrame>, b: seq<DoipFrame>)
    requires TurnConforms(s, f, fault, a) && TurnConforms(s, f, fault, b)
    ensures a == b
  {
    if Activates(f) {
      SameAcceptance(a[0], b[0], f);
    } else if Asks(f) && s.activated {
      SameReturn(a[0], b[0], f, DIAGNOSTIC_ACK);
      if |a| == 2 {
        SameReply(s, f, fault, a[1], b[1]);
        assert a == [a[0], a[1]] && b == [b[0], b[1]];
      } else {
        assert a == [a[0]] && b == [b[0]];
      }
    }
  }

  lemma SameReply(s: Session, f: DoipFrame, fault: Fault, a: DoipFrame, b: DoipFrame)
    requires Asks(f) && TargetOf(f) in s.devices && Replies(a, s, f, fault) && Replies(b, s, f, fault)
    ensures a == b
  {
    SameReturn(a, b, f, DIAGNOSTIC);
  }

  /** Over any frames and any faults: the server frames that conform are exactly those
      of the session. */
  lemma {:induction false} SessionConforms(s: Session, fs: seq<DoipFrame>, draw: nat -> Fault, n: nat,
                                           outs: seq<DoipFrame>)
    ensures Conforms(s, fs, draw, n, outs) <==> outs == Serve(s, fs, draw, n)
    decreases |fs|
  {
    if fs != [] {
      var t, k := Handle(s, fs[0], draw(n)), Given(s, fs[0]);
      TurnIsConform(s, fs[0], draw(n));
      if |outs| >= k {
        if TurnConforms(s, fs[0], draw(n), outs[..k]) {
          TurnIsOnlyOne(s, fs[0], draw(n), outs[..k], t.out);
        }
        SessionConforms(t.next, fs[1..], draw, n + 1, outs[k..]);
        assert outs == outs[..k] + outs[k..];
      }
    }
  }

  // ----- When a session is cut short -----------------------------------------

  /** An answer is too long exactly when a longer value than 4092 bytes is read. */
  lemma TooMuchIff(s: Session, f: DoipFrame)
    requires s.activated && Asks(f) && TargetOf(f) in s.devices
    ensures TooMuch(s, f) <==>
      var req, store := f.payload[4..], s.devices[TargetOf(f)].store;
      |req| >= 3 && req[0] == SID_READ && Word(req[1], req[2]) in store && |store[Word(req[1], req[2])]| > MAX_VALUE
  {
    assert f.payload[4..] != [];
  }

  /** The session after a list of messages, by direct calls of the handlers. */
  function SessionAt(s: Session, fs: seq<DoipFrame>): Session
    decreases |fs|
  {
    if fs == [] then s else SessionAt(Effect(s, fs[0]), fs[1..])
  }

  /** All that a client is due for a list of messages. */
  function DueAll(s: Session, fs: seq<DoipFrame>): nat
    decreases |fs|
  {
    if fs == [] then 0 else Due(s, fs[0]) + DueAll(Effect(s, fs[0]), fs[1..])
  }

  /** No message meets a value that does not fit, when its turn comes. */
  ghost predicate NeverTooMuch(s: Session, fs: seq<DoipFrame>) {
    forall i | 0 <= i < |fs| :: !TooMuch(SessionAt(s, fs[..i]), fs[i])
  }

  lemma NeverTooMuchFrom(s: Session, fs: seq<DoipFrame>)
    requires fs != []
    ensures NeverTooMuch(s, fs) <==> !TooMuch(s, fs[0]) && NeverTooMuch(Effect(s, fs[0]), fs[1..])
  {
    var rest := fs[1..];
    forall i | 0 <= i < |rest|
      ensures SessionAt(s, fs[..i + 1]) == SessionAt(Effect(s, fs[0]), rest[..i]) && fs[i + 1] == rest[i]
    {
      assert fs[..i + 1][1..] == rest[..i];
    }
    assert SessionAt(s, fs[..0]) == s;
    if !TooMuch(s, fs[0]) && NeverTooMuch(Effect(s, fs[0]), rest) {
      forall i | 0 <= i < |fs|
        ensures !TooMuch(SessionAt(s, fs[..i]), fs[i])
      {
        if i > 0 {
          assert fs[i] == rest[i - 1];
        }
      }
    }
    if NeverTooMuch(s, fs) {
      assert !TooMuch(SessionAt(s, fs[..0]), fs[0]);
      forall i | 0 <= i < |rest|
        ensures !TooMuch(SessionAt(Effect(s, fs[0]), rest[..i]), rest[i])
      {
        assert !TooMuch(SessionAt(s, fs[..i + 1]), fs[i + 1]);
      }
    }
  }

  /** A client gets all that it is due, one ACK and one response per well-formed message,
      if and only if no message meets a value over 4092 bytes. */
  lemma {:induction false} AllServedIff(s: Session, fs: seq<DoipFrame>, draw: nat -> Fault, n: nat)
    ensures |Serve(s, fs, draw, n)| <= DueAll(s, fs)
    ensures |Serve(s, fs, draw, n)| == DueAll(s, fs) <==> NeverTooMuch(s, fs)
    decreases |fs|
  {
    if fs != [] {
      TurnIsConform(s, fs[0], draw(n));
      NeverTooMuchFrom(s, fs);
      AllServedIff(Effect(s, fs[0]), fs[1..], draw, n + 1);
    }
  }

  /** Every value fits and none that a two-byte DID names can be written. */
  ghost predicate Secure(t: Target) {
    Bounded(t.store) && forall did | did in t.store && 0 <= did < 0x10000 :: did in t.protected
  }

  ghost predicate AllSecure(devices: map<int, Target>) {
    forall target | target in devices && 0 <= target < 0x10000 :: Secure(devices[target])
  }

  lemma SecureKeeps(s: Session, f: DoipFrame)
    requires AllSecure(s.devices)
    ensures AllSecure(Effect(s, f).devices) && !TooMuch(s, f)
  {
    if Asks(f) && s.activated && TargetOf(f) in s.devices {
      TooMuchIff(s, f);
      assert Secure(s.devices[TargetOf(f)]);
      assert Asked(s, f).store == s.devices[TargetOf(f)].store;
    }
  }

  lemma {:induction false} SecureNeverTooMuch(s: Session, fs: seq<DoipFrame>)
    requires AllSecure(s.devices)
    ensures NeverTooMuch(s, fs)
    decreases |fs|
  {
    if fs != [] {
      SecureKeeps(s, fs[0]);
      SecureNeverTooMuch(Effect(s, fs[0]), fs[1..]);
      NeverTooMuchFrom(s, fs);
    }
  }

  const ACTIVATION: WireFrame := DoipFrame(VERSION, VERSION_INV, ROUTING_REQUEST, [])

  /** A message from the client with address 0. */
  function Message(target: nat, req: seq<byte>): WireFrame
    requires target < 0x1_0000 && |req| < 0x1_0000
  {
    Built(DIAGNOSTIC, [0, 0] + U16(target) + req)
  }

  lemma MessageAsks(target: nat, req: seq<byte>)
    requires target < 0x1_0000 && req != [] && |req| < 0x1_0000
    ensures var f := Message(target, req); Asks(f) && TargetOf(f) == target && f.payload[4..] == req
  {
    assert Message(target, req).payload[2..][..2] == U16(target);
  }

  function ReadOf(did: nat): seq<byte>
    requires did < 0x1_0000
  {
    [SID_READ] + U16(did)
  }

  /** A value that cannot be read ends the session. */
  lemma ReadsTooMuch(s: Session, target: nat, did: nat)
    requires s.activated && target in s.devices && target < 0x1_0000 && did < 0x1_0000
    requires did in s.devices[target].store && |s.devices[target].store[did]| > MAX_VALUE
    ensures TooMuch(s, Message(target, ReadOf(did)))
  {
    MessageAsks(target, ReadOf(did));
    assert Word(ReadOf(did)[1], ReadOf(did)[2]) == did;
    TooMuchIff(s, Message(target, ReadOf(did)));
  }

  /** Such a value can be written first, where nothing protects its DID. */
  lemma WritesTooMuch(s: Session, target: nat, did: nat)
    requires s.activated && target in s.devices && target < 0x1_0000 && did < 0x1_0000
    requires did in s.devices[target].store && did !in s.devices[target].protected
    ensures var f := Message(target, [SID_WRITE] + U16(did) + Repeat(0, MAX_VALUE + 1));
      var s' := Effect(s, f);
      s'.activated && target in s'.devices && did in s'.devices[target].store
      && |s'.devices[target].store[did]| > MAX_VALUE
  {
    var req := [SID_WRITE] + U16(did) + Repeat(0, MAX_VALUE + 1);
    MessageAsks(target, req);
    assert Word(req[1], req[2]) == did && |req[3..]| == MAX_VALUE + 1;
  }

  /** A session that is cut short, for a device that is not secure. */
  lemma CutShort(devices: map<int, Target>, target: nat, did: nat) returns (fs: seq<WireFrame>)
    requires target in devices && target < 0x1_0000 && did in devices[target].store && did < 0x1_0000
    requires |devices[target].store[did]| > MAX_VALUE || did !in devices[target].protected
    ensures !NeverTooMuch(SessionState(false, devices), fs)
  {
    var s0, s := SessionState(false, devices), SessionState(true, devices);
    var read := Message(target, ReadOf(did));
    if |devices[target].store[did]| > MAX_VALUE {
      fs := [ACTIVATION, read];
      ReadsTooMuch(s, target, did);
      CutAt(s0, fs, s, 1);
    } else {
      var write := Message(target, [SID_WRITE] + U16(did) + Repeat(0, MAX_VALUE + 1));
      fs := [ACTIVATION, write, read];
      WritesTooMuch(s, target, did);
      ReadsTooMuch(Effect(s, write), target, did);
      assert fs[..2] == [ACTIVATION, write] && [ACTIVATION, write][1..] == [write];
      assert SessionAt(s, [write]) == SessionAt(Effect(s, write), []);
      CutAt(s0, fs, Effect(s, write), 2);
    }
  }

  lemma CutAt(s: Session, fs: seq<DoipFrame>, t: Session, i: nat)
    requires i < |fs| && SessionAt(s, fs[..i]) == t && TooMuch(t, fs[i])
    ensures !NeverTooMuch(s, fs)
  {
  }

  /** No session is ever cut short if and only if every value fits and every DID that a
      client can name is protected: over DoIP a value of any length can be written. */
  lemma NeverCutIff(devices: map<int, Target>)
    ensures (forall fs: seq<WireFrame> :: NeverTooMuch(SessionState(false, devices), fs)) <==> AllSecure(devices)
  {
    if AllSecure(devices) {
      forall fs: seq<WireFrame>
        ensures NeverTooMuch(SessionState(false, devices), fs)
      {
        SecureNeverTooMuch(SessionState(false, devices), fs);
      }
    } else {
      var target :| target in devices && 0 <= target < 0x10000 && !Secure(devices[target]);
      var t := devices[target];
      var did :| did in t.store && 0 <= did < 0x10000 && (|t.store[did]| > MAX_VALUE || did !in t.protected);
      var fs := CutShort(devices, target, did);
    }
  }

  /** Before activation a session answers nothing. */
  lemma {:induction false} SilentUntilActivated(s: Session, fs: seq<DoipFrame>, draw: nat -> Fault, n: nat,
                                                outs: seq<WireFrame>)
    requires !s.activated && forall i | 0 <= i < |fs| :: !Activates(fs[i])
    requires outs == Serve(s, fs, draw, n)
    ensures outs == []
    decreases |fs|
  {
    if fs != [] {
      SilentUntilActivated(s, fs[1..], draw, n + 1, Serve(s, fs[1..], draw, n + 1));
    }
  }

  /** A diagnostic message byte by byte: source, target, request. */
  function Question(source: nat, target: nat, req: seq<byte>): DoipFrame
    requires source < 0x1_0000 && target < 0x1_0000
  {
    DoipFrame(0x02, 0xFD, 0x8001, [source / 256, source % 256, target / 256, target % 256] + req)
  }

  lemma QuestionAsks(source: nat, target: nat, req: seq<byte>)
    requires source < 0x1_0000 && target < 0x1_0000 && req != []
    ensures var f := Question(source, target, req);
      Asks(f) && !Activates(f) && Read16(f.payload) == source && TargetOf(f) == target && f.payload[4..] == req
  {
  }

  lemma BuiltBytes(source: nat, target: nat, uds: seq<byte>)
    requires source < 0x1_0000 && target < 0x1_0000 && |uds| <= MAX_PAYLOAD
    ensures DiagnosticMessage(source, target, uds) == Question(source, target, uds)
    ensures DiagnosticAck(source, target, 0) == Question(source, target, [0]).(kind := 0x8002)
  {
    assert U16(source) + U16(target) == [source / 256, source % 256, target / 256, target % 256];
  }

  /** A request to a known device, whatever fault is drawn: an ACK, then what the fault
      leaves of the handler's answer; the end behind the ACK if the answer is too long. */
  lemma DamagedAnswer(s: Session, source: nat, target: nat, req: seq<byte>, fault: Fault)
    requires s.activated && source < 0x1_0000 && target < 0x1_0000 && target in s.devices
    requires req != []
    ensures var d := s.devices[target];
      var h := UdsHandle(d.protected, req, d.store);
      var ack := Question(target, source, [0]).(kind := 0x8002);
      var turn := Handle(s, Question(source, target, req), fault);
      && h.response.Some? && h.response.value != []
      && turn.next == s.(devices := s.devices[target := d.(store := h.store)])
      && var r := h.response.value;
         if |r| > 4095 then turn.out == [ack] && turn.ended
         else
           !turn.ended && turn.out == [ack, Question(target, source,
             if Possible(fault, |Frames(r)|) then LenientOutcome(r, fault) else r)]
  {
    var f := Question(source, target, req);
    QuestionAsks(source, target, req);
    DiagnoseIs(s, f, fault, Handle(s, f, fault));
    var r := Asked(s, f).response.value;
    BuiltBytes(target, source, if |r| > MAX_PAYLOAD then [] else LenientReply(r, fault));
  }

  /** Without a fault it is the handler's answer. */
  lemma FaultFreeAnswer(s: Session, source: nat, target: nat, req: seq<byte>)
    requires s.activated && source < 0x1_0000 && target < 0x1_0000 && target in s.devices
    requires req != []
    ensures var d := s.devices[target];
      var h := UdsHandle(d.protected, req, d.store);
      var turn := Handle(s, Question(source, target, req), NoFault);
      && h.response.Some?
      && (|h.response.value| <= 4095 ==>
            turn == Turn(
              [DiagnosticAck(target, source, 0), DiagnosticMessage(target, source, h.response.value)],
              s.(devices := s.devices[target := d.(store := h.store)]), false))
      && (|h.response.value| > 4095 ==> turn.out == [DiagnosticAck(target, source, 0)] && turn.ended)
  {
    DamagedAnswer(s, source, target, req, NoFault);
    var d := s.devices[target];
    var r := UdsHandle(d.protected, req, d.store).response.value;
    BuiltBytes(target, source, if |r| > MAX_PAYLOAD then [] else r);
  }
}

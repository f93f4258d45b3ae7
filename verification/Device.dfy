/** simulator/device.py on CAN: the UDS and the Service 77 worker of one device,
    as a state machine that moves from one `await` to the next. */
module Device {
  import opened Bytes
  import opened Bus
  import opened IsoTp
  import opened Faults
  import opened FaultOutcomes
  import opened Handlers

  datatype Service = Uds | S77

  datatype Config = Config(txId: int, protected: set<int>)

  function ResponseId(c: Config, svc: Service): int {
    match svc
    case Uds => c.txId + 0x10
    case S77 => c.txId + 0x12
  }

  /** Where a worker is suspended. */
  datatype Phase =
    | Ready                                      // waiting for a frame
    | SendingFc(fc: Frame)                       // about to answer a First Frame
    | Sending(frames: seq<Frame>, sent: nat)     // about to send frame number `sent` of a response
    | AwaitingFc(frames: seq<Frame>)             // frame 0 sent, waiting for Flow Control
    | Crashed                                    // `segment` raised

  datatype Worker = Worker(queue: seq<Frame>, rx: State, phase: Phase)

  /** One call of a handler: the store it met and what it answered. */
  datatype Dispatch = Dispatch(service: Service, request: seq<byte>, before: Store,
                               response: Option<seq<byte>>, fault: Fault)

  /** `tx` is everything put on the bus queue so far, `log` every dispatch so far. */
  datatype Device = Device(uds: Worker, s77: Worker, store: Store, tx: seq<Sent>, log: seq<Dispatch>)
  {
    function Get(svc: Service): Worker {
      match svc
      case Uds => uds
      case S77 => s77
    }

    function Put(svc: Service, w: Worker): Device {
      match svc
      case Uds => this.(uds := w)
      case S77 => this.(s77 := w)
    }
  }

  const FreshWorker := Worker([], Idle, Ready)

  function Initial(store: Store): Device {
    Device(FreshWorker, FreshWorker, store, [], [])
  }

  datatype Action =
    | Arrive(svc: Service, frame: Frame)   // the bus calls an RX callback
    | Resume(svc: Service, fault: Fault)   // a worker runs to its next await
    | Timeout(svc: Service)                // no Flow Control within the second

  function HandleOf(c: Config, svc: Service, req: seq<byte>, store: Store): Handled {
    match svc
    case Uds => UdsHandle(c.protected, req, store)
    case S77 => S77Handle(req, store)
  }

  /** The fault that the injector applies to a response. */
  function DrawnFor(response: Option<seq<byte>>, fault: Fault): (f: Fault)
    ensures response.Some? && |response.value| <= MAX_PAYLOAD ==> Possible(f, |Frames(response.value)|)
  {
    match response
    case None => NoFault
    case Some(r) => if |r| <= MAX_PAYLOAD then Drawn(fault, |Frames(r)|) else NoFault
  }

  /** Where a worker stands once the handler has answered. */
  function PhaseFor(response: Option<seq<byte>>, drawn: Fault): Phase
    requires response.Some? && |response.value| <= MAX_PAYLOAD ==> Possible(drawn, |Frames(response.value)|)
  {
    match response
    case None => Ready
    case Some(r) =>
      match Segment(r)
      case Raised => Crashed
      case Ok(frames) => Sending(Apply(frames, drawn), 0)
  }

  /** `_handle_payload` up to the first send. */
  function Dispatched(c: Config, d: Device, svc: Service, queue: seq<Frame>, rx: State,
                      req: seq<byte>, fault: Fault): Device
  {
    var h := HandleOf(c, svc, req, d.store);
    var drawn := DrawnFor(h.response, fault);
    d.Put(svc, Worker(queue, rx, PhaseFor(h.response, drawn))).(
      store := h.store,
      log := d.log + [Dispatch(svc, req, d.store, h.response, drawn)])
  }

  function Send(c: Config, d: Device, svc: Service, f: Frame, next: Phase): Device {
    d.Put(svc, d.Get(svc).(phase := next)).(tx := d.tx + [Sent(ResponseId(c, svc), f)])
  }

  /** The phase behind the `k`-th frame of a response. */
  function Behind(frames: seq<Frame>, k: nat): Phase {
    if k + 1 == |frames| then Ready else if k == 0 then AwaitingFc(frames) else Sending(frames, k + 1)
  }

  /** A worker runs to its next await; a worker with nothing to do stays put. */
  function Resumed(c: Config, d: Device, svc: Service, fault: Fault): Device {
    var w := d.Get(svc);
    match w.phase
    case Ready =>
      if w.queue == [] then d
      else
        var rest, r := w.queue[1..], Step(w.rx, w.queue[0]);
        if r.fc.Some? then d.Put(svc, Worker(rest, r.next, SendingFc(r.fc.value)))
        else if r.payload.Some? then Dispatched(c, d, svc, rest, r.next, r.payload.value, fault)
        else d.Put(svc, Worker(rest, r.next, Ready))
    case SendingFc(fc) => Send(c, d, svc, fc, Ready)
    case AwaitingFc(frames) =>
      if w.queue == [] then d
      else
        var next := if FrameType(w.queue[0]) == 3 then Sending(frames, 1) else Ready;
        d.Put(svc, Worker(w.queue[1..], w.rx, next))
    case Sending(frames, k) =>
      if k >= |frames| then d
      else Send(c, d, svc, frames[k], Behind(frames, k))
    case Crashed => d
  }

  function Next(c: Config, d: Device, a: Action): Device {
    var w := d.Get(a.svc);
    match a
    case Arrive(svc, f) => d.Put(svc, w.(queue := w.queue + [f]))
    case Resume(svc, fault) => Resumed(c, d, svc, fault)
    case Timeout(svc) => if w.phase.AwaitingFc? then d.Put(svc, w.(phase := Ready)) else d
  }

  /** The device after any interleaving of arrivals, worker steps and timeouts. */
  function Run(c: Config, d: Device, acts: seq<Action>): Device {
    if acts == [] then d else Next(c, Run(c, d, acts[..|acts| - 1]), acts[|acts| - 1])
  }

  /** The responses of one service, in order of dispatch. */
  function Responses(log: seq<Dispatch>, svc: Service): seq<seq<byte>> {
    if log == [] then []
    else
      var e := log[|log| - 1];
      Responses(log[..|log| - 1], svc) + (if e.service == svc then ToSeq(e.response) else [])
  }

  /** The dispatches of one service. */
  function Calls(log: seq<Dispatch>, svc: Service): seq<Dispatch> {
    if log == [] then []
    else Calls(log[..|log| - 1], svc) + (if log[|log| - 1].service == svc then [log[|log| - 1]] else [])
  }

  function DrawOf(e: Dispatch, svc: Service): seq<LegalDraw> {
    match e.response
    case Some(r) => if e.service == svc && Draw(r, e.fault).Legal() then [Draw(r, e.fault)] else []
    case None => []
  }

  /** The responses of one service that could be segmented, with their faults. */
  function Draws(log: seq<Dispatch>, svc: Service): seq<LegalDraw> {
    if log == [] then [] else Draws(log[..|log| - 1], svc) + DrawOf(log[|log| - 1], svc)
  }

  // ----- The step function, phase by phase -----------------------------------

  lemma ResumedReady(c: Config, d: Device, svc: Service, fault: Fault)
    requires d.Get(svc).phase == Ready
    ensures var w, d' := d.Get(svc), Resumed(c, d, svc, fault);
      if w.queue == [] then d' == d
      else
        var r := Step(w.rx, w.queue[0]);
        if r.fc == None && r.payload.Some? then
          d' == Dispatched(c, d, svc, w.queue[1..], r.next, r.payload.value, fault)
        else
          d' == d.Put(svc, Worker(w.queue[1..], r.next, if r.fc.Some? then SendingFc(FLOW_CONTROL) else Ready))
  {
  }

  lemma ResumedFc(c: Config, d: Device, svc: Service, fault: Fault)
    requires d.Get(svc).phase.SendingFc?
    ensures Resumed(c, d, svc, fault) == Send(c, d, svc, d.Get(svc).phase.fc, Ready)
  {
  }

  lemma ResumedSending(c: Config, d: Device, svc: Service, fault: Fault, frames: seq<Frame>, k: nat)
    requires k < |frames|
    requires d.Get(svc).phase == Sending(frames, k)
    ensures Resumed(c, d, svc, fault) == Send(c, d, svc, frames[k], Behind(frames, k))
  {
  }

  lemma ResumedWaiter(c: Config, d: Device, svc: Service, fault: Fault)
    requires d.Get(svc).phase.AwaitingFc?
    ensures var w := d.Get(svc);
      Resumed(c, d, svc, fault) ==
        if w.queue == [] then d
        else d.Put(svc, Worker(w.queue[1..], w.rx,
               if FrameType(w.queue[0]) == 3 then Sending(w.phase.frames, 1) else Ready))
  {
  }
}

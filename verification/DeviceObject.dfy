/** simulator/device.py as an object: two assemblers, two queues and two suspended
    workers over one shared store. Every method refines a step of `Device.Next`. */
module DeviceObject {
  import opened Bytes
  import opened Bus
  import opened IsoTp
  import opened Faults
  import opened Handlers
  import opened Device

  class SimulatedDevice {
    const config: Config
    const store: DatapointStore
    const udsHandler: UDSHandler
    const s77Handler: Service77Handler
    const udsAssembler: ISOTPAssembler
    const s77Assembler: ISOTPAssembler
    var udsQueue: seq<Frame>
    var s77Queue: seq<Frame>
    var udsPhase: Phase
    var s77Phase: Phase
    var tx: seq<Sent>
    ghost var log: seq<Dispatch>

    ghost predicate Valid()
      reads this, store, udsAssembler, s77Assembler
    {
      && udsAssembler != s77Assembler
      && udsAssembler.Valid() && s77Assembler.Valid()
      && udsHandler.protected == config.protected
    }

    ghost function View(): Device
      reads this, store, udsAssembler, s77Assembler
      requires Valid()
    {
      Device(Worker(udsQueue, udsAssembler.View(), udsPhase),
             Worker(s77Queue, s77Assembler.View(), s77Phase),
             store.data, tx, log)
    }

    constructor (config: Config, initial: Store)
      ensures Valid() && View() == Initial(initial)
      ensures this.config == config
      ensures fresh(store) && fresh(udsAssembler) && fresh(s77Assembler)
    {
      this.config := config;
      store := new DatapointStore(initial);
      udsHandler := new UDSHandler(config.protected);
      s77Handler := new Service77Handler();
      udsAssembler := new ISOTPAssembler();
      s77Assembler := new ISOTPAssembler();
      udsQueue, s77Queue, udsPhase, s77Phase, tx, log := [], [], Ready, Ready, [], [];
    }

    /** The RX callbacks `_on_uds_frame` and `_on_s77_frame`. */
    method OnFrame(svc: Service, frame: Frame)
      requires Valid()
      modifies this
      ensures Valid() && View() == Next(config, old(View()), Arrive(svc, frame))
    {
      if svc == Uds {
        udsQueue := udsQueue + [frame];
      } else {
        s77Queue := s77Queue + [frame];
      }
    }

    method SetPhase(svc: Service, phase: Phase)
      requires Valid()
      modifies this`udsPhase, this`s77Phase
      ensures Valid()
      ensures View() == old(View()).Put(svc, old(View()).Get(svc).(phase := phase))
    {
      if svc == Uds {
        udsPhase := phase;
      } else {
        s77Phase := phase;
      }
    }

    /** `queue.get()` on a queue that is not empty. */
    method Take(svc: Service) returns (frame: Frame)
      requires Valid() && View().Get(svc).queue != []
      modifies this`udsQueue, this`s77Queue
      ensures Valid() && frame == old(View()).Get(svc).queue[0]
      ensures View() == old(View()).Put(svc, old(View()).Get(svc).(queue := old(View()).Get(svc).queue[1..]))
    {
      if svc == Uds {
        frame, udsQueue := udsQueue[0], udsQueue[1..];
      } else {
        frame, s77Queue := s77Queue[0], s77Queue[1..];
      }
    }

    /** `wait_for` gives up on the Flow Control frame. */
    method Expire(svc: Service)
      requires Valid()
      modifies this`udsPhase, this`s77Phase
      ensures Valid() && View() == Next(config, old(View()), Timeout(svc))
    {
      var phase := if svc == Uds then udsPhase else s77Phase;
      if phase.AwaitingFc? {
        SetPhase(svc, Ready);
      }
    }

    /** `_bus.send` on the service's response ID, then suspend in `next`. */
    method SendFrame(svc: Service, frame: Frame, next: Phase)
      requires Valid()
      modifies this`tx, this`udsPhase, this`s77Phase
      ensures Valid() && View() == Send(config, old(View()), svc, frame, next)
    {
      var id := if svc == Uds then config.txId + 0x10 else config.txId + 0x12;
      tx := tx + [Sent(id, frame)];
      SetPhase(svc, next);
    }

    /** `handler.handle`, for the handler of the worker. */
    method Ask(svc: Service, payload: seq<byte>) returns (response: Option<seq<byte>>)
      requires Valid()
      modifies store
      ensures Valid()
      ensures Handled(response, store.data) == HandleOf(config, svc, payload, old(store.data))
    {
      if svc == Uds {
        response := udsHandler.Handle(payload, store);
      } else {
        response := s77Handler.Handle(payload, store);
      }
    }

    /** `_handle_payload` up to its first send. */
    method HandlePayload(svc: Service, payload: seq<byte>, fault: Fault)
      requires Valid()
      modifies this`udsPhase, this`s77Phase, this`log, store
      ensures Valid()
      ensures var d := old(View());
        View() == Dispatched(config, d, svc, d.Get(svc).queue, d.Get(svc).rx, payload, fault)
    {
      var response := Ask(svc, payload);
      var phase, drawn := Prepare(response, fault);
      log := log + [Dispatch(svc, payload, old(store.data), response, drawn)];
      SetPhase(svc, phase);
    }

    /** Segmentation of the response and fault injection. */
    method Prepare(response: Option<seq<byte>>, fault: Fault) returns (phase: Phase, drawn: Fault)
      ensures drawn == DrawnFor(response, fault) && phase == PhaseFor(response, drawn)
    {
      phase, drawn := Ready, NoFault;
      if response.Some? {
        var segmented := SegmentPayload(response.value);
        if segmented.Raised? {
          phase := Crashed;
        } else {
          drawn := if Possible(fault, |segmented.value|) then fault else NoFault;
          var frames := Inject(segmented.value, drawn);
          phase := Sending(frames, 0);
        }
      }
    }

    /** `assembler.feed`, for the assembler of the worker. */
    method FeedWorker(svc: Service, data: Frame) returns (payload: Option<seq<byte>>, fc: Option<Frame>)
      requires Valid()
      modifies udsAssembler, s77Assembler
      ensures Valid()
      ensures var w := old(View()).Get(svc);
        && Reaction(View().Get(svc).rx, payload, fc) == Step(w.rx, data)
        && View() == old(View()).Put(svc, w.(rx := Step(w.rx, data).next))
    {
      if svc == Uds {
        payload, fc := udsAssembler.Feed(data);
      } else {
        payload, fc := s77Assembler.Feed(data);
      }
    }

    /** The next frame of the queue through the assembler. */
    method FeedNext(svc: Service) returns (payload: Option<seq<byte>>, fc: Option<Frame>)
      requires Valid() && View().Get(svc).queue != []
      modifies this`udsQueue, this`s77Queue, udsAssembler, s77Assembler
      ensures Valid()
      ensures var w := old(View()).Get(svc);
        var r := Step(w.rx, w.queue[0]);
        && payload == r.payload && fc == r.fc
        && View() == old(View()).Put(svc, Worker(w.queue[1..], r.next, w.phase))
    {
      var data := Take(svc);
      payload, fc := FeedWorker(svc, data);
    }

    /** `_process_frame`: one frame through the assembler. */
    method ProcessFrame(svc: Service, fault: Fault)
      requires Valid() && View().Get(svc).phase == Ready && View().Get(svc).queue != []
      modifies this, store, udsAssembler, s77Assembler
      ensures Valid() && View() == Resumed(config, old(View()), svc, fault)
    {
      var payload, fc := FeedNext(svc);
      if fc.Some? {
        SetPhase(svc, SendingFc(fc.value));
      } else if payload.Some? {
        HandlePayload(svc, payload.value, fault);
      }
    }

    /** `send_frames`: frame `k` of a response, then suspend behind it. */
    method SendResponseFrame(svc: Service, frames: seq<Frame>, k: nat, fault: Fault)
      requires Valid() && k < |frames|
      requires View().Get(svc).phase == Sending(frames, k)
      modifies this`tx, this`udsPhase, this`s77Phase
      ensures Valid() && View() == Resumed(config, old(View()), svc, fault)
    {
      ResumedSending(config, View(), svc, fault, frames, k);
      var next := if k + 1 == |frames| then Ready else if k == 0 then AwaitingFc(frames) else Sending(frames, k + 1);
      SendFrame(svc, frames[k], next);
    }

    /** The Flow Control waiter takes the next frame, whatever it is. */
    method TakeFlowControl(svc: Service, frames: seq<Frame>, fault: Fault)
      requires Valid() && View().Get(svc).queue != [] && View().Get(svc).phase == AwaitingFc(frames)
      modifies this
      ensures Valid() && View() == Resumed(config, old(View()), svc, fault)
    {
      var data := Take(svc);
      SetPhase(svc, if data[0] / 16 == 3 then Sending(frames, 1) else Ready);
    }

    method RunReady(svc: Service, fault: Fault)
      requires Valid() && View().Get(svc).phase == Ready
      modifies this, store, udsAssembler, s77Assembler
      ensures Valid() && View() == Resumed(config, old(View()), svc, fault)
    {
      var empty := if svc == Uds then udsQueue == [] else s77Queue == [];
      if !empty {
        ProcessFrame(svc, fault);
      }
    }

    method RunFc(svc: Service, fc: Frame, fault: Fault)
      requires Valid() && View().Get(svc).phase == SendingFc(fc)
      modifies this`tx, this`udsPhase, this`s77Phase
      ensures Valid() && View() == Resumed(config, old(View()), svc, fault)
    {
      ResumedFc(config, View(), svc, fault);
      SendFrame(svc, fc, Ready);
    }

    method RunWaiter(svc: Service, frames: seq<Frame>, fault: Fault)
      requires Valid() && View().Get(svc).phase == AwaitingFc(frames)
      modifies this
      ensures Valid() && View() == Resumed(config, old(View()), svc, fault)
    {
      var empty := if svc == Uds then udsQueue == [] else s77Queue == [];
      if !empty {
        TakeFlowControl(svc, frames, fault);
      }
    }

    method RunSender(svc: Service, frames: seq<Frame>, k: nat, fault: Fault)
      requires Valid() && View().Get(svc).phase == Sending(frames, k)
      modifies this`tx, this`udsPhase, this`s77Phase
      ensures Valid() && View() == Resumed(config, old(View()), svc, fault)
    {
      if k < |frames| {
        SendResponseFrame(svc, frames, k, fault);
      }
    }

    /** A worker that is about to send, or that cannot go on. */
    method RunBusy(svc: Service, phase: Phase, fault: Fault)
      requires Valid() && View().Get(svc).phase == phase && (phase.SendingFc? || phase.Sending? || phase.Crashed?)
      modifies this`tx, this`udsPhase, this`s77Phase
      ensures Valid() && View() == Resumed(config, old(View()), svc, fault)
    {
      match phase {
        case SendingFc(fc) => RunFc(svc, fc, fault);
        case Sending(frames, k) => RunSender(svc, frames, k, fault);
        case Crashed =>
      }
    }

    /** A worker runs from the await it is suspended in to the next one. */
    method Run(svc: Service, fault: Fault)
      requires Valid()
      modifies this, store, udsAssembler, s77Assembler
      ensures Valid() && View() == Next(config, old(View()), Resume(svc, fault))
    {
      var phase := if svc == Uds then udsPhase else s77Phase;
      match phase {
        case Ready => RunReady(svc, fault);
        case AwaitingFc(frames) => RunWaiter(svc, frames, fault);
        case _ => RunBusy(svc, phase, fault);
      }
    }
  }
}

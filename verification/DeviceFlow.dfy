/** Flow control over runs: behind the first frame of a long response nothing goes out
    until the client asks for it. */
module DeviceFlow {
  import opened Bytes
  import opened IsoTp
  import opened IsoTpStreams
  import opened Faults
  import opened Handlers
  import opened Device
  import opened DeviceSafety
  import opened DeviceHistory
  import opened DeviceStages

  // ----- One response without Flow Control -----------------------------------

  predicate NoArrival(acts: seq<Action>, svc: Service) {
    forall i | 0 <= i < |acts| :: !(acts[i].Arrive? && acts[i].svc == svc)
  }

  predicate NoTimeout(acts: seq<Action>, svc: Service) {
    forall i | 0 <= i < |acts| :: !(acts[i].Timeout? && acts[i].svc == svc)
  }

  /** The worker gets to run at least once. */
  predicate Runs(acts: seq<Action>, svc: Service) {
    exists i | 0 <= i < |acts| :: acts[i].Resume? && acts[i].svc == svc
  }

  lemma RunsSnoc(acts: seq<Action>, svc: Service)
    requires acts != []
    ensures var a := acts[|acts| - 1];
      Runs(acts, svc) <==> Runs(acts[..|acts| - 1], svc) || (a.Resume? && a.svc == svc)
  {
    var init := acts[..|acts| - 1];
    if Runs(init, svc) {
      var i :| 0 <= i < |init| && init[i].Resume? && init[i].svc == svc;
      assert acts[i].Resume? && acts[i].svc == svc;
    }
    if Runs(acts, svc) {
      var i :| 0 <= i < |acts| && acts[i].Resume? && acts[i].svc == svc;
      assert i < |init| ==> init[i] == acts[i];
    }
  }

  lemma RunsConcat(a: seq<Action>, b: seq<Action>, svc: Service)
    ensures Runs(a + b, svc) <==> Runs(a, svc) || Runs(b, svc)
    decreases |b|
  {
    if b == [] {
      assert a + b == a;
    } else {
      ConcatInit(a, b);
      RunsSnoc(a + b, svc);
      RunsSnoc(b, svc);
      RunsConcat(a, b[..|b| - 1], svc);
    }
  }

  /** A worker about to start on a response of several frames. */
  predicate Starts(d: Device, svc: Service, frames: seq<Frame>) {
    |frames| > 1 && d.Get(svc).queue == [] && d.Get(svc).phase == Sending(frames, 0)
  }

  /** Where such a worker can be while no frame arrives; `out` is what it has sent since. */
  predicate Waits(w: Worker, rx: State, frames: seq<Frame>, out: seq<Frame>)
    requires frames != []
  {
    && w.queue == [] && w.rx == rx
    && match w.phase
       case Sending(fs, k) => fs == frames && k == 0 && out == []
       case AwaitingFc(fs) => fs == frames && out == [frames[0]]
       case Ready => out == [frames[0]]
       case _ => false
  }

  lemma WaitsStep(c: Config, d: Device, svc: Service, rx: State, frames: seq<Frame>, out: seq<Frame>, a: Action)
    requires |frames| > 1 && Waits(d.Get(svc), rx, frames, out) && !(a.Arrive? && a.svc == svc)
    ensures var d' := Next(c, d, a);
      var out' := if a.svc == svc && a.Resume? then [frames[0]] else out;
      && Waits(d'.Get(svc), rx, frames, out')
      && Sends(c, d', svc) == Sends(c, d, svc) + (if out == out' then [] else [frames[0]])
      && (d.Get(svc).phase != Ready && !(a.Timeout? && a.svc == svc) ==> d'.Get(svc).phase != Ready)
  {
    if a.svc != svc {
      OtherStep(c, d, a, svc);
    } else if a.Resume? && d.Get(svc).phase.Sending? {
      ResumedSending(c, d, svc, a.fault, frames, 0);
      SendOnId(c, d, svc, frames[0], AwaitingFc(frames));
    }
  }

  lemma {:induction false} WaitsRun(c: Config, d: Device, svc: Service, frames: seq<Frame>, acts: seq<Action>)
    returns (out: seq<Frame>)
    requires Starts(d, svc, frames) && NoArrival(acts, svc)
    ensures out == if Runs(acts, svc) then [frames[0]] else []
    ensures Waits(Run(c, d, acts).Get(svc), d.Get(svc).rx, frames, out)
    ensures Sends(c, Run(c, d, acts), svc) == Sends(c, d, svc) + out
    ensures NoTimeout(acts, svc) ==> Run(c, d, acts).Get(svc).phase != Ready
  {
    if acts == [] {
      out := [];
    } else {
      var n := |acts| - 1;
      out := WaitsRun(c, d, svc, frames, acts[..n]);
      WaitsStep(c, Run(c, d, acts[..n]), svc, d.Get(svc).rx, frames, out, acts[n]);
      RunsSnoc(acts, svc);
      out := if acts[n].svc == svc && acts[n].Resume? then [frames[0]] else out;
    }
  }

  /** As long as the client sends nothing, exactly the first frame of a long response goes
      out, in the first step of the worker, whatever else happens and however long it
      takes; and once the timeout strikes behind it the response is given up. */
  lemma OnlyFirstFrame(c: Config, d: Device, svc: Service, frames: seq<Frame>, acts: seq<Action>)
    requires Starts(d, svc, frames) && NoArrival(acts, svc)
    ensures var d' := Run(c, d, acts);
      && Sends(c, d', svc) == Sends(c, d, svc) + (if Runs(acts, svc) then [frames[0]] else [])
      && (Runs(acts, svc) ==> Next(c, d', Timeout(svc)).Get(svc) == Worker([], d.Get(svc).rx, Ready))
  {
    var out := WaitsRun(c, d, svc, frames, acts);
  }

  // ----- A frame that is no Flow Control -------------------------------------

  /** The same with one frame arrived, until it is taken. */
  predicate Held(w: Worker, rx: State, frames: seq<Frame>, f: Frame, out: seq<Frame>)
    requires frames != []
  {
    && w.rx == rx
    && match w.phase
       case Sending(fs, k) => fs == frames && k == 0 && w.queue == [f] && out == []
       case AwaitingFc(fs) => fs == frames && w.queue == [f] && out == [frames[0]]
       case Ready => w.queue == [] && out == [frames[0]]
       case _ => false
  }

  lemma HeldStep(c: Config, d: Device, svc: Service, rx: State, frames: seq<Frame>, f: Frame, out: seq<Frame>,
                 a: Action)
    requires |frames| > 1 && Held(d.Get(svc), rx, frames, f, out) && FrameType(f) != 3
    requires a.svc == svc ==> a.Resume?
    ensures var d' := Next(c, d, a);
      var out' := if a.svc == svc then [frames[0]] else out;
      && Held(d'.Get(svc), rx, frames, f, out')
      && Sends(c, d', svc) == Sends(c, d, svc) + (if out == out' then [] else [frames[0]])
      && (a.svc == svc && !d.Get(svc).phase.Sending? ==> d'.Get(svc).phase == Ready)
  {
    if a.svc != svc {
      OtherStep(c, d, a, svc);
    } else if d.Get(svc).phase.Sending? {
      ResumedSending(c, d, svc, a.fault, frames, 0);
      SendOnId(c, d, svc, frames[0], AwaitingFc(frames));
    }
  }

  lemma {:induction false} HeldRun(c: Config, d: Device, svc: Service, rx: State, frames: seq<Frame>, f: Frame,
                                   before: seq<Frame>, acts: seq<Action>)
    returns (out: seq<Frame>)
    requires |frames| > 1 && Held(d.Get(svc), rx, frames, f, before) && FrameType(f) != 3
    requires NoArrival(acts, svc) && NoTimeout(acts, svc)
    ensures out == if Runs(acts, svc) then [frames[0]] else before
    ensures Held(Run(c, d, acts).Get(svc), rx, frames, f, out)
    ensures Sends(c, Run(c, d, acts), svc) == Sends(c, d, svc) + (if out == before then [] else [frames[0]])
  {
    if acts == [] {
      out := before;
    } else {
      var n := |acts| - 1;
      out := HeldRun(c, d, svc, rx, frames, f, before, acts[..n]);
      HeldStep(c, Run(c, d, acts[..n]), svc, rx, frames, f, out, acts[n]);
      RunsSnoc(acts, svc);
      out := if acts[n].svc == svc then [frames[0]] else out;
    }
  }

  lemma HeldEnds(c: Config, d: Device, svc: Service, rx: State, frames: seq<Frame>, f: Frame, x: Fault)
    requires frames != [] && Held(d.Get(svc), rx, frames, f, [frames[0]]) && FrameType(f) != 3
    ensures Next(c, d, Resume(svc, x)).Get(svc) == Worker([], rx, Ready)
  {
  }

  lemma RunAround(c: Config, d: Device, a1: seq<Action>, a: Action, a2: seq<Action>)
    ensures Run(c, d, a1 + [a] + a2) == Run(c, Next(c, Run(c, d, a1), a), a2)
  {
    RunConcat(c, d, a1 + [a], a2);
    RunSnoc(c, d, a1, a);
  }

  lemma HeldBegins(c: Config, d: Device, svc: Service, rx: State, frames: seq<Frame>, f: Frame, out: seq<Frame>)
    requires frames != [] && Waits(d.Get(svc), rx, frames, out) && d.Get(svc).phase != Ready
    ensures var d' := Next(c, d, Arrive(svc, f));
      Held(d'.Get(svc), rx, frames, f, out) && Sends(c, d', svc) == Sends(c, d, svc)
  {
  }

  /** A frame that is no Flow Control, at any time before the timeout, has the response
      given up: nothing goes out behind the first frame, and the worker that takes that
      frame is at rest again. */
  lemma WrongFrameGivesUp(c: Config, d: Device, svc: Service, frames: seq<Frame>, a1: seq<Action>, f: Frame,
                          a2: seq<Action>, x: Fault)
    requires Starts(d, svc, frames) && FrameType(f) != 3
    requires NoArrival(a1, svc) && NoTimeout(a1, svc) && NoArrival(a2, svc) && NoTimeout(a2, svc)
    ensures var d' := Run(c, d, a1 + [Arrive(svc, f)] + a2);
      && Sends(c, d', svc) == Sends(c, d, svc) + (if Runs(a1 + a2, svc) then [frames[0]] else [])
      && (Runs(a1 + a2, svc) ==> Next(c, d', Resume(svc, x)).Get(svc) == Worker([], d.Get(svc).rx, Ready))
  {
    var rx, d1 := d.Get(svc).rx, Run(c, d, a1);
    var out1 := WaitsRun(c, d, svc, frames, a1);
    HeldBegins(c, d1, svc, rx, frames, f, out1);
    var d2 := Next(c, d1, Arrive(svc, f));
    var out2 := HeldRun(c, d2, svc, rx, frames, f, out1, a2);
    RunAround(c, d, a1, Arrive(svc, f), a2);
    RunsConcat(a1, a2, svc);
    if Runs(a1 + a2, svc) {
      HeldEnds(c, Run(c, d2, a2), svc, rx, frames, f, x);
    }
  }

  // ----- Bursts --------------------------------------------------------------

  /** How many bursts of Consecutive Frames there are in a list of frames. */
  function Bursts(fs: seq<Frame>): nat {
    if fs == [] then 0
    else
      var n := |fs| - 1;
      Bursts(fs[..n]) + if FrameType(fs[n]) == 2 && (n == 0 || FrameType(fs[n - 1]) != 2) then 1 else 0
  }

  lemma BurstsSnoc(fs: seq<Frame>, f: Frame)
    ensures Bursts(fs + [f])
      == Bursts(fs) + if FrameType(f) == 2 && (fs == [] || FrameType(fs[|fs| - 1]) != 2) then 1 else 0
  {
    SnocApart(fs, f);
  }

  lemma {:induction false} NoBursts(fs: seq<Frame>)
    requires Bursts(fs) == 0
    ensures forall i | 0 <= i < |fs| :: FrameType(fs[i]) != 2
  {
    if fs != [] {
      NoBursts(fs[..|fs| - 1]);
    }
  }

  /** How many Flow Control frames are among these. */
  function FlowControls(fs: seq<Frame>): nat {
    if fs == [] then 0 else (if FrameType(fs[0]) == 3 then 1 else 0) + FlowControls(fs[1..])
  }

  lemma {:induction false} FlowControlsSnoc(fs: seq<Frame>, f: Frame)
    ensures FlowControls(fs + [f]) == FlowControls(fs) + if FrameType(f) == 3 then 1 else 0
  {
    if fs == [] {
      assert fs + [f] == [f];
    } else {
      ConcatTail(fs, [f]);
      FlowControlsSnoc(fs[1..], f);
    }
  }

  /** How many Flow Control frames have arrived for one service. */
  function FcArrivals(acts: seq<Action>, svc: Service): nat {
    if acts == [] then 0
    else
      var a := acts[|acts| - 1];
      FcArrivals(acts[..|acts| - 1], svc) + if a.Arrive? && a.svc == svc && FrameType(a.frame) == 3 then 1 else 0
  }

  /** One frame that starts a message, then Consecutive Frames. */
  predicate Shaped(fs: seq<Frame>) {
    fs != [] && FrameType(fs[0]) <= 1 && forall i | 1 <= i < |fs| :: FrameType(fs[i]) == 2
  }

  lemma FramesAreShaped(p: seq<byte>)
    requires 1 <= |p| <= MAX_PAYLOAD
    ensures Shaped(Frames(p)) && (|Frames(p)| > 1 ==> FrameType(Frames(p)[0]) == 1)
  {
    if |p| > 7 {
      CfsAreNumbered(p);
      DataOfFrames(p);
      forall i | 1 <= i < |Frames(p)|
        ensures FrameType(Frames(p)[i]) == 2
      {
        assert IsCf(ConsecutiveFrames(p)[i - 1]);
      }
    }
  }

  /** No fault makes a frame look like one of another type. */
  lemma FaultKeepsShape(fs: seq<Frame>, fault: Fault)
    requires Shaped(fs) && Possible(fault, |fs|) && (|fs| > 1 ==> FrameType(fs[0]) == 1)
    ensures Shaped(Apply(fs, fault))
  {
  }

  /** A burst is on its way only behind its first frame, which is owed to Flow Control. */
  predicate Flows(phase: Phase, out: seq<Frame>) {
    match phase
    case SendingFc(fc) => FrameType(fc) == 3
    case Sending(fs, k) => k < |fs| && Shaped(fs) && (k >= 2 ==> out != [] && FrameType(out[|out| - 1]) == 2)
    case AwaitingFc(fs) => |fs| > 1 && Shaped(fs)
    case _ => true
  }

  /** Flow Control taken, and its burst not begun. */
  function Owed(phase: Phase): nat { if phase.Sending? && phase.sent == 1 then 1 else 0 }

  predicate Paced(w: Worker, out: seq<Frame>, fcs: nat) {
    Flows(w.phase, out) && Bursts(out) + Owed(w.phase) + FlowControls(w.queue) <= fcs
  }

  lemma DispatchPaced(c: Config, d: Device, svc: Service, queue: seq<Frame>, rx: State, req: seq<byte>, fault: Fault,
                      out: seq<Frame>)
    ensures var w := Dispatched(c, d, svc, queue, rx, req, fault).Get(svc);
      w.queue == queue && Flows(w.phase, out) && Owed(w.phase) == 0
  {
    var d' := Dispatched(c, d, svc, queue, rx, req, fault);
    DispatchShape(c, d, svc, queue, rx, req, fault);
    var more := DrawOf(d'.log[|d.log|], svc);
    if more != [] {
      FramesAreShaped(more[0].payload);
      FaultKeepsShape(Frames(more[0].payload), more[0].fault);
    }
  }

  lemma ReadyPaced(c: Config, d: Device, svc: Service, fault: Fault, out: seq<Frame>, fcs: nat)
    requires d.Get(svc).phase == Ready && Paced(d.Get(svc), out, fcs)
    ensures Paced(Resumed(c, d, svc, fault).Get(svc), out, fcs) && Resumed(c, d, svc, fault).tx == d.tx
  {
    var w := d.Get(svc);
    ResumedReady(c, d, svc, fault);
    if w.queue != [] {
      var r := Step(w.rx, w.queue[0]);
      if r.payload.Some? {
        DispatchPaced(c, d, svc, w.queue[1..], r.next, r.payload.value, fault, out);
      }
    }
  }

  lemma SentPaced(fs: seq<Frame>, k: nat, out: seq<Frame>)
    requires Flows(Sending(fs, k), out)
    ensures Flows(Behind(fs, k), out + [fs[k]])
    ensures Bursts(out + [fs[k]]) + Owed(Behind(fs, k)) <= Bursts(out) + Owed(Sending(fs, k))
  {
    BurstsSnoc(out, fs[k]);
  }

  lemma SendingPaced(c: Config, d: Device, svc: Service, fault: Fault, fcs: nat)
    requires d.Get(svc).phase.Sending? && Paced(d.Get(svc), Sends(c, d, svc), fcs)
    ensures var d' := Resumed(c, d, svc, fault); Paced(d'.Get(svc), Sends(c, d', svc), fcs)
  {
    var fs, k := d.Get(svc).phase.frames, d.Get(svc).phase.sent;
    ResumedSending(c, d, svc, fault, fs, k);
    SendOnId(c, d, svc, fs[k], Behind(fs, k));
    SentPaced(fs, k, Sends(c, d, svc));
  }

  lemma FcSentPaced(fc: Frame, out: seq<Frame>)
    requires FrameType(fc) == 3
    ensures Bursts(out + [fc]) == Bursts(out)
  {
    BurstsSnoc(out, fc);
  }

  lemma SendingFcPaced(c: Config, d: Device, svc: Service, fault: Fault, fcs: nat)
    requires d.Get(svc).phase.SendingFc? && Paced(d.Get(svc), Sends(c, d, svc), fcs)
    ensures var d' := Resumed(c, d, svc, fault); Paced(d'.Get(svc), Sends(c, d', svc), fcs)
  {
    var fc := d.Get(svc).phase.fc;
    ResumedFc(c, d, svc, fault);
    SendOnId(c, d, svc, fc, Ready);
    FcSentPaced(fc, Sends(c, d, svc));
  }

  lemma ResumePaced(c: Config, d: Device, svc: Service, fault: Fault, fcs: nat)
    requires Paced(d.Get(svc), Sends(c, d, svc), fcs)
    ensures var d' := Resumed(c, d, svc, fault); Paced(d'.Get(svc), Sends(c, d', svc), fcs)
  {
    var phase := d.Get(svc).phase;
    if phase == Ready {
      ReadyPaced(c, d, svc, fault, Sends(c, d, svc), fcs);
    } else if phase.Sending? {
      SendingPaced(c, d, svc, fault, fcs);
    } else if phase.SendingFc? {
      SendingFcPaced(c, d, svc, fault, fcs);
    } else if phase.AwaitingFc? {
      ResumedWaiter(c, d, svc, fault);
    }
  }

  lemma NextPaced(c: Config, d: Device, svc: Service, a: Action, fcs: nat)
    requires Paced(d.Get(svc), Sends(c, d, svc), fcs)
    ensures var d' := Next(c, d, a);
      Paced(d'.Get(svc), Sends(c, d', svc),
            fcs + if a.Arrive? && a.svc == svc && FrameType(a.frame) == 3 then 1 else 0)
  {
    if a.svc != svc {
      OtherStep(c, d, a, svc);
    } else if a.Arrive? {
      FlowControlsSnoc(d.Get(svc).queue, a.frame);
    } else if a.Resume? {
      ResumePaced(c, d, svc, a.fault, fcs);
    }
  }

  lemma {:induction false} RunPaced(c: Config, init: Store, acts: seq<Action>, svc: Service)
    ensures var d := Run(c, Initial(init), acts);
      Paced(d.Get(svc), Sends(c, d, svc), FcArrivals(acts, svc))
  {
    if acts != [] {
      RunPaced(c, init, acts[..|acts| - 1], svc);
      NextPaced(c, Run(c, Initial(init), acts[..|acts| - 1]), svc, acts[|acts| - 1],
                FcArrivals(acts[..|acts| - 1], svc));
    }
  }

  /** Over every run, whatever arrives and whatever faults are drawn: a service sends at
      most one burst of Consecutive Frames for each Flow Control frame that it gets, so
      none at all to a client that never sends one. */
  lemma BurstsNeedFc(c: Config, init: Store, acts: seq<Action>, svc: Service)
    ensures var out := Sends(c, Run(c, Initial(init), acts), svc);
      && Bursts(out) <= FcArrivals(acts, svc)
      && (FcArrivals(acts, svc) == 0 ==> forall i | 0 <= i < |out| :: FrameType(out[i]) != 2)
  {
    RunPaced(c, init, acts, svc);
    var out := Sends(c, Run(c, Initial(init), acts), svc);
    if FcArrivals(acts, svc) == 0 {
      NoBursts(out);
    }
  }

  // ----- No frame is lost ----------------------------------------------------

  /** The frames that have arrived for one service. */
  function Arrived(acts: seq<Action>, svc: Service): seq<Frame> {
    if acts == [] then []
    else
      var a := acts[|acts| - 1];
      Arrived(acts[..|acts| - 1], svc) + if a.Arrive? && a.svc == svc then [a.frame] else []
  }

  /** How often the worker of one service has run. */
  function StepsOf(acts: seq<Action>, svc: Service): nat {
    if acts == [] then 0
    else
      var a := acts[|acts| - 1];
      StepsOf(acts[..|acts| - 1], svc) + if a.Resume? && a.svc == svc then 1 else 0
  }

  lemma NextQueue(c: Config, d: Device, a: Action, svc: Service)
    ensures var q, q' := d.Get(svc).queue, Next(c, d, a).Get(svc).queue;
      if a.Arrive? && a.svc == svc then q' == q + [a.frame]
      else q' == q || (a.Resume? && a.svc == svc && q != [] && q' == q[1..])
  {
  }

  predicate IsRest(q: seq<Frame>, all: seq<Frame>, steps: nat) {
    |q| <= |all| && q == all[|all| - |q|..] && |all| <= |q| + steps
  }

  lemma RestTaken(q: seq<Frame>, all: seq<Frame>, steps: nat)
    requires IsRest(q, all, steps) && q != []
    ensures IsRest(q[1..], all, steps + 1)
  {
  }

  lemma RestGrows(q: seq<Frame>, all: seq<Frame>, steps: nat, f: Frame)
    requires IsRest(q, all, steps)
    ensures IsRest(q + [f], all + [f], steps)
  {
  }

  lemma RestNext(c: Config, d: Device, a: Action, svc: Service, all: seq<Frame>, steps: nat)
    requires IsRest(d.Get(svc).queue, all, steps)
    ensures IsRest(Next(c, d, a).Get(svc).queue, all + if a.Arrive? && a.svc == svc then [a.frame] else [],
                   steps + if a.Resume? && a.svc == svc then 1 else 0)
  {
    NextQueue(c, d, a, svc);
    if a.Arrive? && a.svc == svc {
      RestGrows(d.Get(svc).queue, all, steps, a.frame);
    } else {
      assert all + [] == all;
      if d.Get(svc).queue != [] {
        RestTaken(d.Get(svc).queue, all, steps);
      }
    }
  }

  /** Over every run the queue of a worker is the end of what has arrived for it, and a
      frame leaves it only in a step of that worker, one to a step: timeouts and the other
      service lose none. */
  lemma {:induction false} QueueIsRest(c: Config, init: Store, acts: seq<Action>, svc: Service)
    ensures IsRest(Run(c, Initial(init), acts).Get(svc).queue, Arrived(acts, svc), StepsOf(acts, svc))
  {
    if acts != [] {
      var n := |acts| - 1;
      QueueIsRest(c, init, acts[..n], svc);
      RestNext(c, Run(c, Initial(init), acts[..n]), acts[n], svc, Arrived(acts[..n], svc), StepsOf(acts[..n], svc));
    }
  }
}

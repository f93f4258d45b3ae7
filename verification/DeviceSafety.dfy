/** What holds of the frames of every run of a device: responses stay whole. */
module DeviceSafety {
  import opened Bytes
  import opened Bus
  import opened IsoTp
  import opened Faults
  import opened FaultOutcomes
  import opened Handlers
  import opened Device
  import opened SentStreams

  // ----- A response on its way out -------------------------------------------

  /** The last `k` frames sent are the first `k` of the last response, behind fronts of
      the earlier ones. */
  ghost predicate InProgress(sent: seq<Frame>, ds: seq<LegalDraw>, frames: seq<Frame>, k: nat) {
    && ds != [] && frames == Faulty(ds[|ds| - 1])
    && k <= |frames| && k <= |sent|
    && sent == sent[..|sent| - k] + frames[..k]
    && Composed(sent[..|sent| - k], ds[..|ds| - 1])
  }

  lemma ProgressIsComposed(sent: seq<Frame>, ds: seq<LegalDraw>, frames: seq<Frame>, k: nat)
    requires InProgress(sent, ds, frames, k)
    ensures Composed(sent, ds)
  {
    ComposedLast(sent[..|sent| - k], ds, k);
  }

  lemma ProgressStep(sent: seq<Frame>, ds: seq<LegalDraw>, frames: seq<Frame>, k: nat)
    requires InProgress(sent, ds, frames, k) && k < |frames|
    ensures InProgress(sent + [frames[k]], ds, frames, k + 1)
  {
    var before, sent' := sent[..|sent| - k], sent + [frames[k]];
    OneFurther(sent, before, frames, k);
    assert |sent'| - (k + 1) == |before|;
  }

  lemma OneFurther<T>(s: seq<T>, before: seq<T>, frames: seq<T>, k: nat)
    requires k < |frames| && s == before + frames[..k]
    ensures (s + [frames[k]])[..|before|] == before
    ensures s + [frames[k]] == before + frames[..k + 1]
  {
  }

  lemma ProgressStart(sent: seq<Frame>, ds: seq<LegalDraw>, d: LegalDraw)
    requires Composed(sent, ds)
    ensures InProgress(sent, ds + [d], Faulty(d), 0)
  {
    assert (ds + [d])[..|ds + [d]| - 1] == ds;
    assert sent == sent[..|sent|] == sent[..|sent|] + Faulty(d)[..0];
  }

  // ----- The invariant of one worker -----------------------------------------

  ghost predicate TracksAt(phase: Phase, sent: seq<Frame>, ds: seq<LegalDraw>) {
    match phase
    case Ready | Crashed => Composed(sent, ds)
    case SendingFc(fc) => FrameType(fc) >= 3 && Composed(sent, ds)
    case AwaitingFc(frames) => |frames| > 1 && InProgress(sent, ds, frames, 1)
    case Sending(frames, k) => k < |frames| && InProgress(sent, ds, frames, k)
  }

  ghost predicate Tracks(c: Config, d: Device, svc: Service) {
    TracksAt(d.Get(svc).phase, OnId(d.tx, ResponseId(c, svc)), Draws(d.log, svc))
  }

  lemma TracksIsComposed(phase: Phase, sent: seq<Frame>, ds: seq<LegalDraw>)
    requires TracksAt(phase, sent, ds)
    ensures Composed(sent, ds)
  {
    match phase
    case AwaitingFc(frames) => ProgressIsComposed(sent, ds, frames, 1);
    case Sending(frames, k) => ProgressIsComposed(sent, ds, frames, k);
    case _ =>
  }

  lemma SendOnId(c: Config, d: Device, svc: Service, f: Frame, next: Phase)
    ensures var d' := Send(c, d, svc, f, next);
      && OnId(d'.tx, ResponseId(c, svc)) == OnId(d.tx, ResponseId(c, svc)) + [f]
      && forall other | other != svc :: OnId(d'.tx, ResponseId(c, other)) == OnId(d.tx, ResponseId(c, other))
  {
    var d' := Send(c, d, svc, f, next);
    assert d'.tx[..|d'.tx| - 1] == d.tx;
  }

  lemma DispatchedDraws(c: Config, d: Device, svc: Service, queue: seq<Frame>, rx: State,
                        req: seq<byte>, fault: Fault)
    ensures var d' := Dispatched(c, d, svc, queue, rx, req, fault);
      && d'.tx == d.tx && d'.log[..|d'.log| - 1] == d.log
      && Draws(d'.log, svc) == Draws(d.log, svc) + DrawOf(d'.log[|d.log|], svc)
      && forall other | other != svc ::
           Draws(d'.log, other) == Draws(d.log, other) && d'.Get(other) == d.Get(other)
  {
  }

  lemma DispatchedCalls(c: Config, d: Device, svc: Service, queue: seq<Frame>, rx: State,
                        req: seq<byte>, fault: Fault)
    ensures var d' := Dispatched(c, d, svc, queue, rx, req, fault);
      && Calls(d'.log, svc) == Calls(d.log, svc) + [d'.log[|d.log|]]
      && forall other | other != svc :: Calls(d'.log, other) == Calls(d.log, other)
  {
    var d' := Dispatched(c, d, svc, queue, rx, req, fault);
    assert d'.log[..|d'.log| - 1] == d.log;
  }

  /** No handler answers with an empty payload. */
  lemma HandlerAnswers(c: Config, svc: Service, req: seq<byte>, store: Store)
    ensures var h := HandleOf(c, svc, req, store); h.response.Some? ==> |h.response.value| >= 3
  {
  }

  /** What a dispatch does to the phase and to the draws of its own service. */
  lemma DispatchShape(c: Config, d: Device, svc: Service, queue: seq<Frame>, rx: State,
                      req: seq<byte>, fault: Fault)
    ensures var d' := Dispatched(c, d, svc, queue, rx, req, fault);
      var more := DrawOf(d'.log[|d.log|], svc);
      if more == [] then d'.Get(svc).phase in {Ready, Crashed}
      else d'.Get(svc).phase == Sending(Faulty(more[0]), 0)
  {
    HandlerAnswers(c, svc, req, d.store);
  }

  lemma StartTracks(phase: Phase, sent: seq<Frame>, ds: seq<LegalDraw>, more: seq<LegalDraw>)
    requires Composed(sent, ds) && |more| <= 1
    requires if more == [] then phase in {Ready, Crashed} else phase == Sending(Faulty(more[0]), 0)
    ensures TracksAt(phase, sent, ds + more)
  {
    if more == [] {
      assert ds + more == ds;
    } else {
      assert more == [more[0]];
      ProgressStart(sent, ds, more[0]);
    }
  }

  lemma DispatchTracks(c: Config, d: Device, svc: Service, queue: seq<Frame>, rx: State,
                       req: seq<byte>, fault: Fault)
    requires Tracks(c, d, svc) && d.Get(svc).phase == Ready
    ensures Tracks(c, Dispatched(c, d, svc, queue, rx, req, fault), svc)
  {
    var d' := Dispatched(c, d, svc, queue, rx, req, fault);
    DispatchedDraws(c, d, svc, queue, rx, req, fault);
    DispatchShape(c, d, svc, queue, rx, req, fault);
    StartTracks(d'.Get(svc).phase, OnId(d.tx, ResponseId(c, svc)), Draws(d.log, svc),
                DrawOf(d'.log[|d.log|], svc));
  }

  lemma QuietTracks(c: Config, d: Device, d': Device, svc: Service)
    requires d'.tx == d.tx && d'.log == d.log
    requires TracksAt(d'.Get(svc).phase, OnId(d.tx, ResponseId(c, svc)), Draws(d.log, svc))
    ensures Tracks(c, d', svc)
  {
  }

  lemma ReadyTracks(c: Config, d: Device, svc: Service, fault: Fault)
    requires Tracks(c, d, svc) && d.Get(svc).phase == Ready
    ensures Tracks(c, Resumed(c, d, svc, fault), svc)
  {
    var w := d.Get(svc);
    ResumedReady(c, d, svc, fault);
    if w.queue != [] {
      var r := Step(w.rx, w.queue[0]);
      if r.fc == None && r.payload.Some? {
        DispatchTracks(c, d, svc, w.queue[1..], r.next, r.payload.value, fault);
      } else {
        QuietTracks(c, d, Resumed(c, d, svc, fault), svc);
      }
    }
  }

  lemma SendTracks(c: Config, d: Device, svc: Service, f: Frame, next: Phase)
    requires TracksAt(next, OnId(d.tx, ResponseId(c, svc)) + [f], Draws(d.log, svc))
    ensures Tracks(c, Send(c, d, svc, f, next), svc)
  {
    SendOnId(c, d, svc, f, next);
  }

  lemma FcTracks(c: Config, d: Device, svc: Service, fault: Fault)
    requires Tracks(c, d, svc) && d.Get(svc).phase.SendingFc?
    ensures Tracks(c, Resumed(c, d, svc, fault), svc)
  {
    var fc := d.Get(svc).phase.fc;
    ComposedStray(OnId(d.tx, ResponseId(c, svc)), Draws(d.log, svc), fc);
    SendTracks(c, d, svc, fc, Ready);
    ResumedFc(c, d, svc, fault);
  }

  lemma SendingTracks(c: Config, d: Device, svc: Service, fault: Fault)
    requires Tracks(c, d, svc)
    requires d.Get(svc).phase.Sending?
    ensures Tracks(c, Resumed(c, d, svc, fault), svc)
  {
    var phase := d.Get(svc).phase;
    var frames, k := phase.frames, phase.sent;
    AdvanceTracks(OnId(d.tx, ResponseId(c, svc)), Draws(d.log, svc), frames, k);
    SendTracks(c, d, svc, frames[k], Behind(frames, k));
    ResumedSending(c, d, svc, fault, frames, k);
  }

  lemma AdvanceTracks(sent: seq<Frame>, ds: seq<LegalDraw>, frames: seq<Frame>, k: nat)
    requires InProgress(sent, ds, frames, k) && k < |frames|
    ensures TracksAt(Behind(frames, k), sent + [frames[k]], ds)
  {
    ProgressStep(sent, ds, frames, k);
    ProgressIsComposed(sent + [frames[k]], ds, frames, k + 1);
  }

  /** A waiter goes on to send, gives up, or goes on waiting. */
  lemma WaiterTracks(c: Config, d: Device, d': Device, svc: Service)
    requires Tracks(c, d, svc) && d.Get(svc).phase.AwaitingFc?
    requires d'.tx == d.tx && d'.log == d.log
    requires d'.Get(svc).phase in {d.Get(svc).phase, Sending(d.Get(svc).phase.frames, 1), Ready}
    ensures Tracks(c, d', svc)
  {
    ProgressIsComposed(OnId(d.tx, ResponseId(c, svc)), Draws(d.log, svc), d.Get(svc).phase.frames, 1);
    QuietTracks(c, d, d', svc);
  }

  lemma ResumeTracks(c: Config, d: Device, svc: Service, fault: Fault)
    requires Tracks(c, d, svc)
    ensures Tracks(c, Resumed(c, d, svc, fault), svc)
  {
    match d.Get(svc).phase {
      case Ready => ReadyTracks(c, d, svc, fault);
      case SendingFc(_) => FcTracks(c, d, svc, fault);
      case AwaitingFc(_) =>
        ResumedWaiter(c, d, svc, fault);
        WaiterTracks(c, d, Resumed(c, d, svc, fault), svc);
      case Crashed => assert Resumed(c, d, svc, fault) == d;
      case Sending(_, _) => SendingTracks(c, d, svc, fault);
    }
  }

  /** A step of one worker is invisible to the other. */
  lemma ResumeFrame(c: Config, d: Device, svc: Service, fault: Fault, other: Service)
    requires other != svc
    ensures var d' := Resumed(c, d, svc, fault);
      && d'.Get(other) == d.Get(other)
      && OnId(d'.tx, ResponseId(c, other)) == OnId(d.tx, ResponseId(c, other))
      && Draws(d'.log, other) == Draws(d.log, other)
      && Calls(d'.log, other) == Calls(d.log, other)
  {
    var w := d.Get(svc);
    match w.phase {
      case Ready =>
        ResumedReady(c, d, svc, fault);
        if w.queue != [] {
          var r := Step(w.rx, w.queue[0]);
          if r.fc == None && r.payload.Some? {
            DispatchedDraws(c, d, svc, w.queue[1..], r.next, r.payload.value, fault);
            DispatchedCalls(c, d, svc, w.queue[1..], r.next, r.payload.value, fault);
          }
        }
      case SendingFc(fc) =>
        ResumedFc(c, d, svc, fault);
        SendOnId(c, d, svc, fc, Ready);
      case AwaitingFc(_) => ResumedWaiter(c, d, svc, fault);
      case Sending(frames, k) =>
        if k < |frames| {
          ResumedSending(c, d, svc, fault, frames, k);
          SendOnId(c, d, svc, frames[k], Behind(frames, k));
        }
      case Crashed =>
    }
  }

  lemma OtherTracks(c: Config, d: Device, who: Service, fault: Fault, svc: Service)
    requires Tracks(c, d, svc) && who != svc
    ensures Tracks(c, Resumed(c, d, who, fault), svc)
  {
    ResumeFrame(c, d, who, fault, svc);
  }

  lemma TimeoutTracks(c: Config, d: Device, who: Service, svc: Service)
    requires Tracks(c, d, svc)
    ensures Tracks(c, Next(c, d, Timeout(who)), svc)
  {
    if who == svc && d.Get(svc).phase.AwaitingFc? {
      WaiterTracks(c, d, Next(c, d, Timeout(who)), svc);
    } else {
      QuietTracks(c, d, Next(c, d, Timeout(who)), svc);
    }
  }

  lemma NextTracks(c: Config, d: Device, a: Action, svc: Service)
    requires Tracks(c, d, svc)
    ensures Tracks(c, Next(c, d, a), svc)
  {
    match a {
      case Arrive(_, _) => QuietTracks(c, d, Next(c, d, a), svc);
      case Timeout(who) => TimeoutTracks(c, d, who, svc);
      case Resume(who, fault) =>
        if who == svc {
          ResumeTracks(c, d, svc, fault);
        } else {
          OtherTracks(c, d, who, fault, svc);
        }
    }
  }

  lemma {:induction false} RunTracks(c: Config, init: Store, acts: seq<Action>, svc: Service)
    ensures Tracks(c, Run(c, Initial(init), acts), svc)
  {
    if acts == [] {
      NothingComposed();
    } else {
      RunTracks(c, init, acts[..|acts| - 1], svc);
      NextTracks(c, Run(c, Initial(init), acts[..|acts| - 1]), acts[|acts| - 1], svc);
    }
  }

  // ----- Whole-run safety ----------------------------------------------------

  /** In every run the frames on a response ID are fronts of that service's responses, in
      order, with Flow Control among them. */
  lemma SentIsComposed(c: Config, init: Store, acts: seq<Action>, svc: Service, d: Device)
    requires d == Run(c, Initial(init), acts)
    ensures Composed(OnId(d.tx, ResponseId(c, svc)), Draws(d.log, svc))
  {
    RunTracks(c, init, acts, svc);
    TracksIsComposed(d.Get(svc).phase, OnId(d.tx, ResponseId(c, svc)), Draws(d.log, svc));
  }

  /** Whatever arrives, however the workers interleave, time out or abort, and
      whatever faults are drawn: a client of either service reassembles an in-order
      subsequence of the outcomes of the responses, never a mixture of two. */
  lemma ResponsesStayWhole(client: State, c: Config, init: Store, acts: seq<Action>, svc: Service, d: Device)
    requires d == Run(c, Initial(init), acts)
    ensures Subsequence(Delivered(client, OnId(d.tx, ResponseId(c, svc))), Outcomes(Draws(d.log, svc)))
  {
    SentIsComposed(c, init, acts, svc, d);
    ComposedDelivers(client, OnId(d.tx, ResponseId(c, svc)), Draws(d.log, svc));
  }

  predicate FaultFree(acts: seq<Action>) {
    forall i | 0 <= i < |acts| :: acts[i].Resume? ==> acts[i].fault == NoFault
  }

  predicate CleanLog(log: seq<Dispatch>) {
    forall i | 0 <= i < |log| :: log[i].fault == NoFault
  }

  lemma NextCleanLog(c: Config, d: Device, a: Action)
    requires CleanLog(d.log) && (a.Resume? ==> a.fault == NoFault)
    ensures CleanLog(Next(c, d, a).log)
  {
  }

  lemma {:induction false} FaultFreeLog(c: Config, init: Store, acts: seq<Action>)
    requires FaultFree(acts)
    ensures CleanLog(Run(c, Initial(init), acts).log)
  {
    if acts != [] {
      FaultFreeLog(c, init, acts[..|acts| - 1]);
      NextCleanLog(c, Run(c, Initial(init), acts[..|acts| - 1]), acts[|acts| - 1]);
    }
  }

  /** What one dispatch adds to the draws of a service is clean, and its outcome is the
      response it adds, if it adds one. */
  lemma CleanDraw(e: Dispatch, svc: Service)
    requires e.fault == NoFault
    ensures var more := DrawOf(e, svc);
      more == [] || (|more| == 1 && more[0].fault == NoFault && e.service == svc && e.response == Some(more[0].payload))
  {
  }

  lemma OutcomesSnoc(ds: seq<LegalDraw>, d: LegalDraw)
    ensures Outcomes(ds + [d]) == Outcomes(ds) + Outcome(d.payload, d.fault)
  {
    assert (ds + [d])[..|ds|] == ds;
  }

  /** Without faults the outcomes are responses, in order; those that cannot be cut into
      frames are missing. */
  lemma {:induction false} OutcomesAreResponses(log: seq<Dispatch>, svc: Service)
    requires CleanLog(log)
    ensures Clean(Draws(log, svc)) && Subsequence(Outcomes(Draws(log, svc)), Responses(log, svc))
  {
    if log != [] {
      var init, e := log[..|log| - 1], log[|log| - 1];
      OutcomesAreResponses(init, svc);
      CleanDraw(e, svc);
      OneMoreResponse(Draws(init, svc), Responses(init, svc), DrawOf(e, svc),
                      if e.service == svc then ToSeq(e.response) else []);
    }
  }

  lemma OneMoreOutcome(ds: seq<LegalDraw>, more: seq<LegalDraw>)
    requires Clean(ds) && |more| == 1 && more[0].fault == NoFault
    ensures Clean(ds + more) && Outcomes(ds + more) == Outcomes(ds) + [more[0].payload]
  {
    assert more == [more[0]];
    OutcomesSnoc(ds, more[0]);
  }

  lemma OneMoreResponse(ds: seq<LegalDraw>, rs: seq<seq<byte>>, more: seq<LegalDraw>, r: seq<seq<byte>>)
    requires Clean(ds) && Subsequence(Outcomes(ds), rs)
    requires more == [] || (|more| == 1 && more[0].fault == NoFault && r == [more[0].payload])
    ensures Clean(ds + more) && Subsequence(Outcomes(ds + more), rs + r)
  {
    if more == [] {
      assert ds + more == ds;
      SubsequenceGrow(Outcomes(ds), rs, r);
    } else {
      OneMoreOutcome(ds, more);
      SubsequenceAppend(Outcomes(ds), rs, r, r);
    }
  }

  /** Without faults the client reassembles an in-order subsequence of exactly
      what the handler answered. */
  lemma FaultFreeRunsDeliverResponses(client: State, c: Config, init: Store, acts: seq<Action>, svc: Service, d: Device)
    requires FaultFree(acts) && d == Run(c, Initial(init), acts)
    ensures Subsequence(Delivered(client, OnId(d.tx, ResponseId(c, svc))), Responses(d.log, svc))
  {
    ResponsesStayWhole(client, c, init, acts, svc, d);
    FaultFreeLog(c, init, acts);
    OutcomesAreResponses(d.log, svc);
    SubsequenceTrans(Delivered(client, OnId(d.tx, ResponseId(c, svc))), Outcomes(Draws(d.log, svc)),
                     Responses(d.log, svc));
  }

  /** The same when the bus loses any of the frames sent, start frames excepted. */
  lemma LossyRunsDeliverResponses(client: State, c: Config, init: Store, acts: seq<Action>, svc: Service, d: Device,
                                  heard: seq<Frame>)
    requires FaultFree(acts) && d == Run(c, Initial(init), acts)
    requires Thinned(heard, OnId(d.tx, ResponseId(c, svc)))
    ensures Subsequence(Delivered(client, heard), Responses(d.log, svc))
  {
    SentIsComposed(c, init, acts, svc, d);
    FaultFreeLog(c, init, acts);
    OutcomesAreResponses(d.log, svc);
    ThinnedDelivers(client, OnId(d.tx, ResponseId(c, svc)), Draws(d.log, svc), heard);
    SubsequenceTrans(Delivered(client, heard), Outcomes(Draws(d.log, svc)), Responses(d.log, svc));
  }
}

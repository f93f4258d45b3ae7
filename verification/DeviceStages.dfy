/** One conversation of a client with one service of a device, while the other service
    does anything: where it can stand, and how every step takes it on. */
module DeviceStages {
  import opened Bytes
  import opened Bus
  import opened IsoTp
  import opened IsoTpStreams
  import opened IsoTpTheorems
  import opened Faults
  import opened Handlers
  import opened Device
  import opened DeviceSafety
  import opened DeviceHistory

  // ----- A cooperating client ------------------------------------------------

  type Request = p: seq<byte> | 1 <= |p| <= MAX_PAYLOAD witness [0]

  /** How many frames have arrived for one service. */
  function Arrivals(acts: seq<Action>, svc: Service): nat {
    if acts == [] then 0
    else
      var a := acts[|acts| - 1];
      Arrivals(acts[..|acts| - 1], svc) + if a.Arrive? && a.svc == svc then 1 else 0
  }

  /** What a client that has sent `n` frames lets happen next: its request frame by frame,
      then Flow Control whenever the worker waits for it, and no timeout. Faults may be
      drawn, and the other service may do anything. */
  predicate Allowed(w: Worker, svc: Service, fs: seq<Frame>, n: nat, a: Action) {
    a.svc == svc ==>
      match a
      case Arrive(_, f) =>
        if n < |fs| then f == fs[n] else FrameType(f) == 3 && w.phase.AwaitingFc? && w.queue == []
      case Resume(_, _) => true
      case Timeout(_) => false
  }

  predicate Cooperates(c: Config, d: Device, svc: Service, fs: seq<Frame>, acts: seq<Action>) {
    acts == []
    || (var init := acts[..|acts| - 1];
        && Cooperates(c, d, svc, fs, init)
        && Allowed(Run(c, d, init).Get(svc), svc, fs, Arrivals(init, svc), acts[|acts| - 1]))
  }

  predicate AtRest(w: Worker) { w.queue == [] && w.phase == Ready }

  /** A whole conversation: from rest to rest, with all frames of the request. */
  predicate Conversation(c: Config, d: Device, svc: Service, req: Request, acts: seq<Action>) {
    && AtRest(d.Get(svc))
    && Cooperates(c, d, svc, Frames(req), acts)
    && Arrivals(acts, svc) >= |Frames(req)|
    && AtRest(Run(c, d, acts).Get(svc))
  }

  // ----- Where a conversation stands -----------------------------------------

  /** The request, and what was there when it began. */
  datatype Talk = Talk(c: Config, svc: Service, req: Request, rx: State, sent: seq<Frame>, calls: seq<Dispatch>)

  function Sends(c: Config, d: Device, svc: Service): seq<Frame> { OnId(d.tx, ResponseId(c, svc)) }

  function Opening(c: Config, d: Device, svc: Service, req: Request): Talk {
    Talk(c, svc, req, d.Get(svc).rx, Sends(c, d, svc), Calls(d.log, svc))
  }

  /** `k` request frames taken, or the request dispatched as `e` and `k` frames of its
      answer sent. */
  datatype Stage = Asking(k: nat) | Answering(e: Dispatch, k: nat)

  predicate TooLong(response: Option<seq<byte>>) { response.Some? && |response.value| > MAX_PAYLOAD }

  /** The frames of an answer as this fault leaves them, whole where it cannot strike; none
      for silence and for an answer that cannot be cut. */
  function AnswerFrames(response: Option<seq<byte>>, fault: Fault): seq<Frame> {
    match response
    case None => []
    case Some(r) =>
      if |r| > MAX_PAYLOAD then []
      else if Possible(fault, |Frames(r)|) then Apply(Frames(r), fault)
      else Frames(r)
  }

  /** The Flow Control that a long request is answered with. */
  function Prompt(req: Request): seq<Frame> { if |Frames(req)| > 1 then [FLOW_CONTROL] else [] }

  /** `e` is the dispatch of the request on the store that it met, under some fault. */
  predicate Serves(c: Config, svc: Service, req: Request, e: Dispatch) {
    && e == Dispatch(svc, req, e.before, HandleOf(c, svc, req, e.before).response, e.fault)
    && e.fault == Injected(e.response, e.fault)
  }

  predicate AskingAt(t: Talk, w: Worker, sent: seq<Frame>, calls: seq<Dispatch>, n: nat, k: nat) {
    var fs := Frames(t.req);
    && k < |fs| && k <= n <= |fs|
    && w.queue == fs[k..n] && w.rx == After(t.rx, fs[..k]) && calls == t.calls
    && if w.phase == Ready then sent == t.sent + (if k > 0 then [FLOW_CONTROL] else [])
       else w.phase == SendingFc(FLOW_CONTROL) && k == 1 && sent == t.sent
  }

  predicate PhaseAt(w: Worker, e: Dispatch, k: nat) {
    var frames := AnswerFrames(e.response, e.fault);
    match w.phase
    case Ready => !TooLong(e.response) && k == |frames| && w.queue == []
    case Sending(fs, sent) => fs == frames && sent == k < |frames| && w.queue == []
    case AwaitingFc(fs) =>
      && fs == frames && k == 1 < |frames|
      && (w.queue == [] || (|w.queue| == 1 && FrameType(w.queue[0]) == 3))
    case Crashed => TooLong(e.response) && w.queue == []
    case SendingFc(_) => false
  }

  predicate AnsweringAt(t: Talk, w: Worker, sent: seq<Frame>, calls: seq<Dispatch>, n: nat, e: Dispatch, k: nat) {
    && n >= |Frames(t.req)|
    && calls == t.calls + [e] && Serves(t.c, t.svc, t.req, e)
    && w.rx == Idle && PhaseAt(w, e, k)
    && k <= |AnswerFrames(e.response, e.fault)|
    && sent == t.sent + Prompt(t.req) + AnswerFrames(e.response, e.fault)[..k]
  }

  predicate At(t: Talk, w: Worker, sent: seq<Frame>, calls: seq<Dispatch>, n: nat, st: Stage) {
    match st
    case Asking(k) => AskingAt(t, w, sent, calls, n, k)
    case Answering(e, k) => AnsweringAt(t, w, sent, calls, n, e, k)
  }

  predicate Stands(t: Talk, d: Device, n: nat, st: Stage) {
    At(t, d.Get(t.svc), Sends(t.c, d, t.svc), Calls(d.log, t.svc), n, st)
  }

  // ----- One step ------------------------------------------------------------

  /** What the assembler does with frame `k` of a request. */
  lemma RequestFrame(rx: State, req: Request, k: nat)
    requires k < |Frames(req)|
    ensures var fs := Frames(req);
      var r := Step(After(rx, fs[..k]), fs[k]);
      && r.next == After(rx, fs[..k + 1])
      && r.payload == (if k + 1 == |fs| then Some(req) else None)
      && r.fc == (if k == 0 && |fs| > 1 then Some(FLOW_CONTROL) else None)
      && (k + 1 == |fs| ==> r.next == Idle)
  {
    RequestFramePayload(rx, req, k, Frames(req));
    RequestFrameFc(After(rx, Frames(req)[..k]), req, k);
  }

  lemma RequestFramePayload(rx: State, req: Request, k: nat, fs: seq<Frame>)
    requires fs == Frames(req) && k < |fs|
    ensures var r := Step(After(rx, fs[..k]), fs[k]);
      && r.next == After(rx, fs[..k + 1])
      && r.payload == (if k + 1 == |fs| then Some(req) else None)
      && (k + 1 == |fs| ==> r.next == Idle)
  {
    RoundTrip(rx, req);
    OneFrame(rx, fs, k);
    assert fs[..|fs|] == fs;
  }

  /** Frame `k` of a list whose first `k` frames deliver nothing. */
  lemma OneFrame(s: State, fs: seq<Frame>, k: nat)
    requires k < |fs| && Delivered(s, fs[..k]) == []
    ensures var r := Step(After(s, fs[..k]), fs[k]);
      && r.next == After(s, fs[..k + 1])
      && (Delivered(s, fs[..k + 1]) == [] ==> r.payload == None)
      && (forall p :: Delivered(s, fs[..k + 1]) == [p] ==> r.payload == Some(p))
  {
    assert fs[..k + 1][..k] == fs[..k];
    StreamLast(s, fs[..k + 1]);
    var o := Step(After(s, fs[..k]), fs[k]).payload;
    assert [] + ToSeq(o) == ToSeq(o);
  }

  lemma RequestFrameFc(s: State, req: Request, k: nat)
    requires k < |Frames(req)|
    ensures Step(s, Frames(req)[k]).fc == if k == 0 && |Frames(req)| > 1 then Some(FLOW_CONTROL) else None
  {
    if |req| > 7 {
      CfsAreNumbered(req);
      DataOfFrames(req);
      assert k > 0 ==> Frames(req)[k] == ConsecutiveFrames(req)[k - 1];
    }
  }

  /** Steps of the other service are not seen. */
  lemma OtherStep(c: Config, d: Device, a: Action, svc: Service)
    requires a.svc != svc
    ensures var d' := Next(c, d, a);
      d'.Get(svc) == d.Get(svc) && Sends(c, d', svc) == Sends(c, d, svc) && Calls(d'.log, svc) == Calls(d.log, svc)
  {
    if a.Resume? {
      ResumeFrame(c, d, a.svc, a.fault, svc);
    }
  }

  lemma ArriveStep(t: Talk, w: Worker, sent: seq<Frame>, calls: seq<Dispatch>, n: nat, st: Stage, f: Frame)
    requires At(t, w, sent, calls, n, st)
    requires Allowed(w, t.svc, Frames(t.req), n, Arrive(t.svc, f))
    ensures At(t, w.(queue := w.queue + [f]), sent, calls, n + 1, st)
  {
    match st {
      case Asking(k) => AskingArrive(t, w, sent, calls, n, k, f);
      case Answering(e, k) => assert w.queue + [f] == [f];
    }
  }

  lemma AskingArrive(t: Talk, w: Worker, sent: seq<Frame>, calls: seq<Dispatch>, n: nat, k: nat, f: Frame)
    requires AskingAt(t, w, sent, calls, n, k)
    requires Allowed(w, t.svc, Frames(t.req), n, Arrive(t.svc, f))
    ensures AskingAt(t, w.(queue := w.queue + [f]), sent, calls, n + 1, k)
  {
    var fs := Frames(t.req);
    assert n < |fs|;
    SliceSnoc(fs, k, n);
  }

  lemma SliceSnoc<T>(s: seq<T>, k: nat, n: nat)
    requires k <= n < |s|
    ensures s[k..n] + [s[n]] == s[k..n + 1]
  {
  }

  lemma SliceHead<T>(s: seq<T>, k: nat, n: nat)
    requires k < n <= |s|
    ensures s[k..n][0] == s[k] && s[k..n][1..] == s[k + 1..n]
  {
  }

  /** The worker takes a request frame before the last. */
  lemma TakeStep(t: Talk, d: Device, n: nat, k: nat, fault: Fault)
    requires Stands(t, d, n, Asking(k)) && d.Get(t.svc).phase == Ready && k < n && k + 1 < |Frames(t.req)|
    ensures Stands(t, Resumed(t.c, d, t.svc, fault), n, Asking(k + 1))
  {
    var fs := Frames(t.req);
    RequestFrame(t.rx, t.req, k);
    SliceHead(fs, k, n);
    TakenFrame(t.c, d, t.svc, fs[k], fault);
    TakenStands(t, d.Get(t.svc), Sends(t.c, d, t.svc), Calls(d.log, t.svc), n, k);
  }

  lemma TakenStands(t: Talk, w: Worker, sent: seq<Frame>, calls: seq<Dispatch>, n: nat, k: nat)
    requires AskingAt(t, w, sent, calls, n, k) && w.phase == Ready && k < n && k + 1 < |Frames(t.req)|
    ensures var fs := Frames(t.req);
      var w' := Worker(fs[k + 1..n], After(t.rx, fs[..k + 1]), if k == 0 then SendingFc(FLOW_CONTROL) else Ready);
      AskingAt(t, w', sent, calls, n, k + 1)
  {
  }

  /** A worker at rest takes a frame that completes nothing. */
  lemma TakenFrame(c: Config, d: Device, svc: Service, f: Frame, fault: Fault)
    requires var w := d.Get(svc); w.phase == Ready && w.queue != [] && w.queue[0] == f && Step(w.rx, f).payload == None
    ensures var w, r := d.Get(svc), Step(d.Get(svc).rx, f);
      Resumed(c, d, svc, fault)
        == d.Put(svc, Worker(w.queue[1..], r.next, if r.fc.Some? then SendingFc(FLOW_CONTROL) else Ready))
  {
    ResumedReady(c, d, svc, fault);
  }

  /** The worker takes the last request frame and calls the handler. */
  lemma DispatchStep(t: Talk, d: Device, n: nat, k: nat, fault: Fault) returns (st: Stage)
    requires Stands(t, d, n, Asking(k)) && d.Get(t.svc).phase == Ready && k < n && k + 1 == |Frames(t.req)|
    ensures st.Answering? && st.k == 0 && st.e.before == d.store
    ensures Stands(t, Resumed(t.c, d, t.svc, fault), n, st)
  {
    var fs := Frames(t.req);
    RequestFrame(t.rx, t.req, k);
    SliceHead(fs, k, n);
    ResumedReady(t.c, d, t.svc, fault);
    DispatchedCalls(t.c, d, t.svc, [], Idle, t.req, fault);
    DispatchedWorker(t.c, d, t.svc, t.req, fault);
    var d' := Dispatched(t.c, d, t.svc, [], Idle, t.req, fault);
    st := Answering(d'.log[|d.log|], 0);
    NothingYet(t.sent, t.req, AnswerFrames(st.e.response, st.e.fault));
  }

  lemma NothingYet(sent: seq<Frame>, req: Request, frames: seq<Frame>)
    ensures sent + (if |Frames(req)| - 1 > 0 then [FLOW_CONTROL] else []) == sent + Prompt(req) + frames[..0]
  {
  }

  lemma DispatchedWorker(c: Config, d: Device, svc: Service, req: Request, fault: Fault)
    ensures var d' := Dispatched(c, d, svc, [], Idle, req, fault);
      var e := d'.log[|d.log|];
      && Serves(c, svc, req, e) && e.before == d.store
      && d'.Get(svc).rx == Idle && PhaseAt(d'.Get(svc), e, 0) && d'.tx == d.tx
  {
  }

  /** The worker answers the First Frame of the request. */
  lemma PromptStep(t: Talk, d: Device, n: nat, k: nat, fault: Fault)
    requires Stands(t, d, n, Asking(k)) && d.Get(t.svc).phase.SendingFc?
    ensures Stands(t, Resumed(t.c, d, t.svc, fault), n, Asking(k))
  {
    ResumedFc(t.c, d, t.svc, fault);
    SendOnId(t.c, d, t.svc, FLOW_CONTROL, Ready);
  }

  /** The worker sends one frame of the answer. */
  lemma SendStep(t: Talk, d: Device, n: nat, e: Dispatch, k: nat, fault: Fault) returns (st: Stage)
    requires Stands(t, d, n, Answering(e, k)) && d.Get(t.svc).phase.Sending?
    ensures st == Answering(e, k + 1) && Stands(t, Resumed(t.c, d, t.svc, fault), n, st)
  {
    var frames := AnswerFrames(e.response, e.fault);
    ResumedSending(t.c, d, t.svc, fault, frames, k);
    SendOnId(t.c, d, t.svc, frames[k], Behind(frames, k));
    st := Answering(e, k + 1);
    OneMore(t.sent + Prompt(t.req), frames, k);
  }

  lemma OneMore<T>(a: seq<T>, b: seq<T>, k: nat)
    requires k < |b|
    ensures a + b[..k] + [b[k]] == a + b[..k + 1]
  {
  }

  /** The worker looks for Flow Control. */
  lemma WaitStep(t: Talk, d: Device, n: nat, e: Dispatch, k: nat, fault: Fault)
    requires Stands(t, d, n, Answering(e, k)) && d.Get(t.svc).phase.AwaitingFc?
    ensures Stands(t, Resumed(t.c, d, t.svc, fault), n, Answering(e, k))
    ensures d.Get(t.svc).queue != [] ==> Resumed(t.c, d, t.svc, fault).Get(t.svc).phase.Sending?
  {
    ResumedWaiter(t.c, d, t.svc, fault);
  }

  lemma ResumeStep(t: Talk, d: Device, n: nat, st: Stage, fault: Fault) returns (st': Stage)
    requires Stands(t, d, n, st)
    ensures Stands(t, Resumed(t.c, d, t.svc, fault), n, st')
    ensures d.Get(t.svc).queue != [] || d.Get(t.svc).phase.Sending? || d.Get(t.svc).phase.SendingFc? ==>
      Closer(t, d, n, st, Resumed(t.c, d, t.svc, fault), n, st')
    ensures st.Asking? && st'.Answering? ==> st'.e.before == d.store
    ensures st.Answering? ==> st'.Answering? && st'.e == st.e
  {
    var w := d.Get(t.svc);
    st' := st;
    match st {
      case Asking(k) =>
        if w.phase.SendingFc? {
          PromptStep(t, d, n, k, fault);
        } else if k == n {
          ResumedReady(t.c, d, t.svc, fault);
        } else if k + 1 < |Frames(t.req)| {
          TakeStep(t, d, n, k, fault);
          st' := Asking(k + 1);
        } else {
          st' := DispatchStep(t, d, n, k, fault);
        }
      case Answering(e, k) =>
        if w.phase.Sending? {
          st' := SendStep(t, d, n, e, k, fault);
        } else if w.phase.AwaitingFc? {
          WaitStep(t, d, n, e, k, fault);
        }
    }
  }

  /** How much is left to do at a stage. */
  function Left(t: Talk, d: Device, n: nat, st: Stage): int {
    var w := d.Get(t.svc);
    match st
    case Asking(k) => 4 * (|Frames(t.req)| - k) + (|Frames(t.req)| - n) + if w.phase.SendingFc? then 1 else 0
    case Answering(e, k) =>
      4 * (|AnswerFrames(e.response, e.fault)| - k) + if w.phase.AwaitingFc? then 3 - |w.queue| else 0
  }

  lemma LeftIsNat(t: Talk, d: Device, n: nat, st: Stage)
    requires Stands(t, d, n, st)
    ensures Left(t, d, n, st) >= 0
  {
  }

  predicate Closer(t: Talk, d: Device, n: nat, st: Stage, d': Device, n': nat, st': Stage) {
    || (st.Asking? && st'.Answering?)
    || (st.Asking? == st'.Asking? && Left(t, d', n', st') < Left(t, d, n, st))
  }

  /** The conversation is at some stage. */
  ghost predicate InCourse(t: Talk, d: Device, n: nat) {
    exists st :: Stands(t, d, n, st)
  }

  lemma OtherStands(t: Talk, d: Device, n: nat, st: Stage, a: Action)
    requires Stands(t, d, n, st) && a.svc != t.svc
    ensures Stands(t, Next(t.c, d, a), n, st)
  {
    OtherStep(t.c, d, a, t.svc);
  }

  lemma ArrivalStands(t: Talk, d: Device, n: nat, st: Stage, f: Frame)
    requires Stands(t, d, n, st) && Allowed(d.Get(t.svc), t.svc, Frames(t.req), n, Arrive(t.svc, f))
    ensures Stands(t, Next(t.c, d, Arrive(t.svc, f)), n + 1, st)
  {
    ArriveStep(t, d.Get(t.svc), Sends(t.c, d, t.svc), Calls(d.log, t.svc), n, st, f);
  }

  /** Every allowed step leaves the conversation at some stage. */
  lemma StaysInCourse(t: Talk, d: Device, n: nat, a: Action, d': Device, n': nat)
    requires InCourse(t, d, n) && Allowed(d.Get(t.svc), t.svc, Frames(t.req), n, a)
    requires d' == Next(t.c, d, a) && n' == n + if a.Arrive? && a.svc == t.svc then 1 else 0
    ensures InCourse(t, d', n')
  {
    var st :| Stands(t, d, n, st);
    if a.svc != t.svc {
      OtherStands(t, d, n, st, a);
    } else if a.Arrive? {
      ArrivalStands(t, d, n, st, a.frame);
    } else {
      var st' := ResumeStep(t, d, n, st, a.fault);
    }
  }

  lemma Begins(c: Config, d: Device, svc: Service, req: Request)
    requires AtRest(d.Get(svc))
    ensures Stands(Opening(c, d, svc, req), d, 0, Asking(0))
  {
    var t := Opening(c, d, svc, req);
    assert t.sent + [] == t.sent;
  }

  // ----- Progress ------------------------------------------------------------

  predicate Answerable(st: Stage) { st.Answering? ==> !TooLong(st.e.response) }

  /** The conversation is at an answerable stage with this much left. */
  ghost predicate CanEnd(t: Talk, d: Device, n: nat, asking: bool, left: int) {
    exists st :: Stands(t, d, n, st) && Answerable(st) && st.Asking? == asking && Left(t, d, n, st) == left
  }

  lemma AliveCanEnd(t: Talk, d: Device, n: nat)
    requires InCourse(t, d, n) && !d.Get(t.svc).phase.Crashed?
    ensures exists asking, left :: CanEnd(t, d, n, asking, left)
  {
    var st :| Stands(t, d, n, st);
    assert Answerable(st);
    assert CanEnd(t, d, n, st.Asking?, Left(t, d, n, st));
  }

  lemma ArriveOn(t: Talk, d: Device, n: nat, asking: bool, left: int, a: Action, d': Device) returns (left': int)
    requires CanEnd(t, d, n, asking, left) && a.Arrive? && a.svc == t.svc && d' == Next(t.c, d, a)
    requires if AtRest(d.Get(t.svc)) then n < |Frames(t.req)| && a.frame == Frames(t.req)[n]
             else d.Get(t.svc).phase.AwaitingFc? && d.Get(t.svc).queue == [] && FrameType(a.frame) == 3
    ensures left' < left && left >= 0
    ensures Allowed(d.Get(t.svc), t.svc, Frames(t.req), n, a)
    ensures CanEnd(t, d', n + 1, asking, left') && d'.store == d.store
  {
    var st :| Stands(t, d, n, st) && Answerable(st) && st.Asking? == asking && Left(t, d, n, st) == left;
    LeftIsNat(t, d, n, st);
    UrgedArrival(t, d, n, st, a);
    ArrivalStands(t, d, n, st, a.frame);
    left' := Left(t, d', n + 1, st);
  }

  lemma ResumeOn(t: Talk, d: Device, n: nat, asking: bool, left: int) returns (asking': bool, left': int)
    requires CanEnd(t, d, n, asking, left) && Bounded(d.store)
    requires var w := d.Get(t.svc); !AtRest(w) && !(w.phase.AwaitingFc? && w.queue == [])
    ensures left >= 0 && ((asking && !asking') || (asking == asking' && left' < left))
    ensures CanEnd(t, Resumed(t.c, d, t.svc, NoFault), n, asking', left')
  {
    var st :| Stands(t, d, n, st) && Answerable(st) && st.Asking? == asking && Left(t, d, n, st) == left;
    LeftIsNat(t, d, n, st);
    var st' := UrgedResume(t, d, n, st);
    asking', left' := st'.Asking?, Left(t, Resumed(t.c, d, t.svc, NoFault), n, st');
  }

  lemma UrgedArrival(t: Talk, d: Device, n: nat, st: Stage, a: Action)
    requires Stands(t, d, n, st) && a.Arrive? && a.svc == t.svc
    requires if AtRest(d.Get(t.svc)) then n < |Frames(t.req)| && a.frame == Frames(t.req)[n]
             else d.Get(t.svc).phase.AwaitingFc? && d.Get(t.svc).queue == [] && FrameType(a.frame) == 3
    ensures Allowed(d.Get(t.svc), t.svc, Frames(t.req), n, a)
    ensures Left(t, Next(t.c, d, a), n + 1, st) < Left(t, d, n, st)
  {
  }

  lemma UrgedResume(t: Talk, d: Device, n: nat, st: Stage) returns (st': Stage)
    requires Stands(t, d, n, st) && Answerable(st) && Bounded(d.store)
    requires var w := d.Get(t.svc); !AtRest(w) && !(w.phase.AwaitingFc? && w.queue == [])
    ensures Stands(t, Resumed(t.c, d, t.svc, NoFault), n, st') && Answerable(st')
    ensures Closer(t, d, n, st, Resumed(t.c, d, t.svc, NoFault), n, st')
  {
    HasWork(t, d, n, st);
    st' := ResumeStep(t, d, n, st, NoFault);
    if st'.Answering? && st.Asking? {
      HandlersKeepBound(t.c, t.svc, t.req, d.store);
    }
  }

  lemma HasWork(t: Talk, d: Device, n: nat, st: Stage)
    requires Stands(t, d, n, st) && Answerable(st) && !AtRest(d.Get(t.svc))
    requires var w := d.Get(t.svc); !(w.phase.AwaitingFc? && w.queue == [])
    ensures d.Get(t.svc).queue != [] || d.Get(t.svc).phase.Sending? || d.Get(t.svc).phase.SendingFc?
  {
  }

  /** A worker that has not taken the whole request is not at rest once it has arrived. */
  lemma AskingIsBusy(t: Talk, w: Worker, sent: seq<Frame>, calls: seq<Dispatch>, n: nat, k: nat)
    requires AskingAt(t, w, sent, calls, n, k) && n >= |Frames(t.req)|
    ensures !AtRest(w)
  {
    SliceHead(Frames(t.req), k, n);
  }

  /** At rest after the last frame of the request, everything has been sent. */
  lemma StandsAtEnd(t: Talk, d: Device, n: nat, st: Stage)
    requires Stands(t, d, n, st) && n >= |Frames(t.req)| && AtRest(d.Get(t.svc))
    ensures st.Answering? && Serves(t.c, t.svc, t.req, st.e) && !TooLong(st.e.response)
    ensures Calls(d.log, t.svc) == t.calls + [st.e]
    ensures Sends(t.c, d, t.svc) == t.sent + (Prompt(t.req) + AnswerFrames(st.e.response, st.e.fault))
    ensures d.Get(t.svc).rx == Idle
  {
    match st {
      case Asking(k) => AskingIsBusy(t, d.Get(t.svc), Sends(t.c, d, t.svc), Calls(d.log, t.svc), n, k);
      case Answering(e, k) => AllSent(t.sent, Prompt(t.req), AnswerFrames(e.response, e.fault));
    }
  }

  lemma AllSent(a: seq<Frame>, b: seq<Frame>, c: seq<Frame>)
    ensures a + b + c[..|c|] == a + (b + c)
  {
  }
}

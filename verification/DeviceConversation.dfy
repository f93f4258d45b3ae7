/** A client that sends its request, answers a First Frame with Flow Control and
    reassembles the response gets what the handler computes, as the fault drawn for it
    leaves it, whatever the other service does meanwhile. */
module DeviceConversation {
  import opened Bytes
  import opened Bus
  import opened IsoTp
  import opened IsoTpStreams
  import opened IsoTpTheorems
  import opened Faults
  import opened FaultOutcomes
  import opened Handlers
  import opened Device
  import opened DeviceSafety
  import opened DeviceHistory
  import opened DeviceStages

  // ----- Runs and conversations ----------------------------------------------

  lemma LastStep(c: Config, d: Device, svc: Service, fs: seq<Frame>, acts: seq<Action>, init: seq<Action>, a: Action)
    requires acts == init + [a]
    ensures Run(c, d, acts) == Next(c, Run(c, d, init), a)
    ensures Arrivals(acts, svc) == Arrivals(init, svc) + if a.Arrive? && a.svc == svc then 1 else 0
    ensures Cooperates(c, d, svc, fs, acts) <==>
      Cooperates(c, d, svc, fs, init) && Allowed(Run(c, d, init).Get(svc), svc, fs, Arrivals(init, svc), a)
  {
    assert acts[..|acts| - 1] == init;
  }

  /** A conversation stands somewhere at any time. */
  lemma {:induction false} Follow(c: Config, d: Device, svc: Service, req: Request, acts: seq<Action>)
    requires AtRest(d.Get(svc)) && Cooperates(c, d, svc, Frames(req), acts)
    ensures InCourse(Opening(c, d, svc, req), Run(c, d, acts), Arrivals(acts, svc))
  {
    var t := Opening(c, d, svc, req);
    if acts == [] {
      Begins(c, d, svc, req);
      assert Stands(t, d, 0, Asking(0));
    } else {
      var init, a := acts[..|acts| - 1], acts[|acts| - 1];
      LastStep(c, d, svc, Frames(req), acts, init, a);
      Follow(c, d, svc, req, init);
      StaysInCourse(t, Run(c, d, init), Arrivals(init, svc), a, Run(c, d, acts), Arrivals(acts, svc));
    }
  }

  // ----- What a conversation comes to ----------------------------------------

  /** What a client in state `client` reassembles from the frames that a service sends
      between two moments of a run. */
  function Received(client: State, c: Config, svc: Service, d: Device, d': Device): seq<seq<byte>>
    requires Sends(c, d, svc) <= Sends(c, d', svc)
  {
    Delivered(client, Sends(c, d', svc)[|Sends(c, d, svc)|..])
  }

  /** What a client hears of an answer under a fault: the damaged answer, none, or, where
      the fault cannot strike, the answer itself. */
  function Heard(response: Option<seq<byte>>, fault: Fault): seq<seq<byte>> {
    match response
    case None => []
    case Some(r) => if 1 <= |r| <= MAX_PAYLOAD && Possible(fault, |Frames(r)|) then Outcome(r, fault) else [r]
  }

  lemma ClientReceives(client: State, req: Request, response: Option<seq<byte>>, fault: Fault)
    requires response.Some? ==> 1 <= |response.value| <= MAX_PAYLOAD
    ensures Delivered(client, Prompt(req) + AnswerFrames(response, fault)) == Heard(response, fault)
  {
    StreamConcat(client, Prompt(req), AnswerFrames(response, fault));
    PromptIsSilent(client, req);
    AnswerHeard(After(client, Prompt(req)), response, fault);
  }

  lemma PromptIsSilent(client: State, req: Request)
    ensures Delivered(client, Prompt(req)) == []
  {
    StreamOne(client, FLOW_CONTROL);
  }

  lemma AnswerHeard(s: State, response: Option<seq<byte>>, fault: Fault)
    requires response.Some? ==> 1 <= |response.value| <= MAX_PAYLOAD
    ensures Delivered(s, AnswerFrames(response, fault)) == Heard(response, fault)
  {
    if response.Some? {
      var r := response.value;
      if Possible(fault, |Frames(r)|) {
        FaultOutcome(s, r, fault);
      } else {
        RoundTrip(s, r);
      }
    }
  }

  lemma {:induction false} CallsConcat(a: seq<Dispatch>, b: seq<Dispatch>, svc: Service)
    ensures Calls(a + b, svc) == Calls(a, svc) + Calls(b, svc)
  {
    if b == [] {
      assert a + b == a;
    } else {
      var n := |b| - 1;
      assert (a + b)[..|a + b| - 1] == a + b[..n];
      CallsConcat(a, b[..n], svc);
    }
  }

  lemma {:induction false} NoCalls(log: seq<Dispatch>, svc: Service)
    requires Calls(log, svc) == []
    ensures forall i | 0 <= i < |log| :: log[i].service != svc
  {
    if log != [] {
      NoCalls(log[..|log| - 1], svc);
    }
  }

  lemma OneElement<T>(a: seq<T>, x: T, e: T)
    requires a + [x] == [e]
    ensures a == [] && x == e
  {
    assert (a + [x])[|a|] == x && |a + [x]| == |a| + 1;
  }

  lemma SameFront<T>(a: seq<T>, b: seq<T>, c: seq<T>)
    requires a + b == a + c
    ensures b == c
  {
    assert (a + b)[|a|..] == b && (a + c)[|a|..] == c;
  }

  /** The one place of the only dispatch of a service. */
  lemma {:induction false} OnlyCall(log: seq<Dispatch>, svc: Service, e: Dispatch) returns (p: nat)
    requires Calls(log, svc) == [e]
    ensures p < |log| && log[p] == e && e.service == svc
    ensures forall i | 0 <= i < |log| && i != p :: log[i].service != svc
  {
    var n := |log| - 1;
    if log[n].service == svc {
      p := n;
      OneElement(Calls(log[..n], svc), log[n], e);
      NoCalls(log[..n], svc);
    } else {
      assert Calls(log[..n], svc) + [] == Calls(log[..n], svc);
      p := OnlyCall(log[..n], svc, e);
    }
  }

  /** From place `lo` on the log has exactly one dispatch of `svc`, at `p`. */
  predicate OnlyAt(log: seq<Dispatch>, lo: nat, svc: Service, p: nat) {
    lo <= p < |log| && log[p].service == svc
    && forall i | lo <= i < |log| && i != p :: log[i].service != svc
  }

  lemma OnlyCallSince(before: seq<Dispatch>, log: seq<Dispatch>, svc: Service, e: Dispatch) returns (p: nat)
    requires before <= log && Calls(log, svc) == Calls(before, svc) + [e]
    ensures OnlyAt(log, |before|, svc, p) && log[p] == e
  {
    var rest := log[|before|..];
    assert log == before + rest;
    CallsConcat(before, rest, svc);
    SameFront(Calls(before, svc), Calls(rest, svc), [e]);
    var i := OnlyCall(rest, svc, e);
    p := |before| + i;
    forall k | |before| <= k < |log| && k != p
      ensures log[k].service != svc
    {
      assert log[k] == rest[k - |before|];
    }
  }

  /** The request was dispatched once, at place `p` of the log and in step `t`; the frames
      sent are those of the handler's answer there as the fault drawn in that step leaves
      them, and the client has got exactly what is left of the answer. */
  ghost predicate Answered(client: State, c: Config, d: Device, svc: Service, req: Request, acts: seq<Action>,
                           p: nat, t: nat)
    requires t < |acts|
  {
    var d' := Run(c, d, acts);
    var met, left := Run(c, d, acts[..t]), Run(c, d, acts[..t + 1]);
    var h := HandleOf(c, svc, req, met.store);
    && OnlyAt(d'.log, |d.log|, svc, p)
    && acts[t].Resume? && acts[t].svc == svc
    && d'.log[p] == Dispatch(svc, req, met.store, h.response, Injected(h.response, acts[t].fault))
    && d'.log[..p] == met.log && d'.log[..p + 1] == left.log && left.store == h.store
    && d'.Get(svc) == FreshWorker && !TooLong(h.response)
    && Sends(c, d', svc) == Sends(c, d, svc) + (Prompt(req) + AnswerFrames(h.response, acts[t].fault))
    && Received(client, c, svc, d, d') == Heard(h.response, acts[t].fault)
  }

  /** Closed loop, on any schedule: whatever the other service does at any time and
      whatever faults are drawn, a client that cooperates gets exactly what the fault of
      one step leaves of the handler's answer on the store of that instant, once, and the
      handler leaves the store as the direct call does. */
  lemma ClosedLoop(client: State, c: Config, d: Device, svc: Service, req: Request, acts: seq<Action>)
    requires Conversation(c, d, svc, req, acts)
    ensures exists p, t | 0 <= t < |acts| :: Answered(client, c, d, svc, req, acts, p, t)
  {
    var talk, d' := Opening(c, d, svc, req), Run(c, d, acts);
    Follow(c, d, svc, req, acts);
    var st :| Stands(talk, d', Arrivals(acts, svc), st);
    StandsAtEnd(talk, d', Arrivals(acts, svc), st);
    var e := st.e;
    RunExtends(c, d, acts);
    var p := OnlyCallSince(d.log, d'.log, svc, e);
    var t := SeenAtOneInstant(c, d, acts, p);
    var f := acts[t].fault;
    HandlerAnswers(c, svc, req, e.before);
    SameAnswerFrames(e.response, f);
    ReceivedIs(client, c, d, svc, d', Prompt(req) + AnswerFrames(e.response, f));
    ClientReceives(client, req, e.response, f);
    SnocSlice(d'.log, p);
    assert Answered(client, c, d, svc, req, acts, p, t);
  }

  lemma SameAnswerFrames(response: Option<seq<byte>>, fault: Fault)
    ensures AnswerFrames(response, Injected(response, fault)) == AnswerFrames(response, fault)
  {
  }

  lemma ReceivedIs(client: State, c: Config, d: Device, svc: Service, d': Device, more: seq<Frame>)
    requires Sends(c, d', svc) == Sends(c, d, svc) + more
    ensures Received(client, c, svc, d, d') == Delivered(client, more)
  {
    assert Sends(c, d', svc)[|Sends(c, d, svc)|..] == more;
  }

  lemma SnocSlice<T>(s: seq<T>, p: nat)
    requires p < |s|
    ensures s[..p + 1] == s[..p] + [s[p]]
  {
  }

  // ----- Every conversation can be brought to its end ------------------------

  lemma NextKeepsFit(c: Config, d: Device, a: Action)
    requires Bounded(d.store)
    ensures Bounded(Next(c, d, a).store)
  {
    NextLog(c, d, a);
    var d' := Next(c, d, a);
    if d'.log != d.log {
      var e := d'.log[|d.log|];
      HandlersKeepBound(c, e.service, e.request, d.store);
    }
  }

  /** From here, with `n` frames arrived, these actions bring the conversation to its end. */
  predicate EndsWith(c: Config, d: Device, svc: Service, fs: seq<Frame>, n: nat, more: seq<Action>)
    decreases |more|
  {
    if more == [] then AtRest(d.Get(svc)) && n >= |fs|
    else
      && Allowed(d.Get(svc), svc, fs, n, more[0])
      && EndsWith(c, Next(c, d, more[0]), svc, fs,
                  n + (if more[0].Arrive? && more[0].svc == svc then 1 else 0), more[1..])
  }

  lemma EndsLater(c: Config, d: Device, svc: Service, fs: seq<Frame>, n: nat, a: Action, d': Device, n': nat,
                  rest: seq<Action>)
    requires Allowed(d.Get(svc), svc, fs, n, a) && d' == Next(c, d, a)
    requires n' == n + if a.Arrive? && a.svc == svc then 1 else 0
    requires EndsWith(c, d', svc, fs, n', rest)
    ensures EndsWith(c, d, svc, fs, n, [a] + rest)
  {
    assert ([a] + rest)[1..] == rest;
  }

  /** The request, Flow Control and the steps of the worker, one at a time. */
  lemma {:induction false} Urged(t: Talk, d: Device, n: nat, asking: bool, left: int, fc: Frame)
    returns (more: seq<Action>)
    requires CanEnd(t, d, n, asking, left) && Bounded(d.store) && FrameType(fc) == 3
    ensures EndsWith(t.c, d, t.svc, Frames(t.req), n, more)
    decreases asking, left, 1
  {
    var w := d.Get(t.svc);
    if AtRest(w) && n >= |Frames(t.req)| {
      more := [];
    } else if AtRest(w) {
      more := UrgedToSend(t, d, n, asking, left, fc, Arrive(t.svc, Frames(t.req)[n]));
    } else if w.phase.AwaitingFc? && w.queue == [] {
      more := UrgedToSend(t, d, n, asking, left, fc, Arrive(t.svc, fc));
    } else {
      more := UrgedToWork(t, d, n, asking, left, fc);
    }
  }

  lemma {:induction false} UrgedToSend(t: Talk, d: Device, n: nat, asking: bool, left: int, fc: Frame, a: Action)
    returns (more: seq<Action>)
    requires CanEnd(t, d, n, asking, left) && Bounded(d.store) && FrameType(fc) == 3
    requires a.Arrive? && a.svc == t.svc
    requires if AtRest(d.Get(t.svc)) then n < |Frames(t.req)| && a.frame == Frames(t.req)[n]
             else d.Get(t.svc).phase.AwaitingFc? && d.Get(t.svc).queue == [] && FrameType(a.frame) == 3
    ensures EndsWith(t.c, d, t.svc, Frames(t.req), n, more)
    decreases asking, left, 0
  {
    var d' := Next(t.c, d, a);
    var left' := ArriveOn(t, d, n, asking, left, a, d');
    var rest := Urged(t, d', n + 1, asking, left', fc);
    EndsLater(t.c, d, t.svc, Frames(t.req), n, a, d', n + 1, rest);
    more := [a] + rest;
  }

  lemma {:induction false} UrgedToWork(t: Talk, d: Device, n: nat, asking: bool, left: int, fc: Frame)
    returns (more: seq<Action>)
    requires CanEnd(t, d, n, asking, left) && Bounded(d.store) && FrameType(fc) == 3
    requires var w := d.Get(t.svc); !AtRest(w) && !(w.phase.AwaitingFc? && w.queue == [])
    ensures EndsWith(t.c, d, t.svc, Frames(t.req), n, more)
    decreases asking, left, 0
  {
    var a := Resume(t.svc, NoFault);
    var d' := Next(t.c, d, a);
    var asking', left' := ResumeOn(t, d, n, asking, left);
    NextKeepsFit(t.c, d, a);
    var rest := Urged(t, d', n, asking', left', fc);
    EndsLater(t.c, d, t.svc, Frames(t.req), n, a, d', n, rest);
    more := [a] + rest;
  }

  lemma {:induction false} Joined(c: Config, d: Device, svc: Service, fs: seq<Frame>, acts: seq<Action>,
                                  x: Device, n: nat, more: seq<Action>, all: seq<Action>)
    requires Cooperates(c, d, svc, fs, acts) && x == Run(c, d, acts) && n == Arrivals(acts, svc)
    requires all == acts + more && EndsWith(c, x, svc, fs, n, more)
    ensures Cooperates(c, d, svc, fs, all)
    ensures Arrivals(all, svc) >= |fs| && AtRest(Run(c, d, all).Get(svc))
    decreases |more|
  {
    if more == [] {
      assert all == acts;
    } else {
      var a, rest := more[0], more[1..];
      var next := acts + [a];
      MoveOne(acts, more);
      LastStep(c, d, svc, fs, next, acts, a);
      Joined(c, d, svc, fs, next, Next(c, x, a), Arrivals(next, svc), rest, all);
    }
  }

  lemma MoveOne<T>(a: seq<T>, b: seq<T>)
    requires b != []
    ensures a + b == a + [b[0]] + b[1..]
  {
  }

  /** No schedule wedges a conversation: whatever has happened, as long as the worker is
      alive and the values fit, further steps complete it. */
  lemma Completable(c: Config, d: Device, svc: Service, req: Request, acts: seq<Action>, fc: Frame)
    requires AtRest(d.Get(svc)) && Cooperates(c, d, svc, Frames(req), acts)
    requires Bounded(Run(c, d, acts).store) && !Run(c, d, acts).Get(svc).phase.Crashed? && FrameType(fc) == 3
    ensures exists more :: Conversation(c, d, svc, req, acts + more)
  {
    var t, x, n := Opening(c, d, svc, req), Run(c, d, acts), Arrivals(acts, svc);
    Follow(c, d, svc, req, acts);
    AliveCanEnd(t, x, n);
    var asking, left :| CanEnd(t, x, n, asking, left);
    var more := Urged(t, x, n, asking, left, fc);
    Joined(c, d, svc, Frames(req), acts, x, n, more, acts + more);
  }

  // ----- A conversation on its own -------------------------------------------

  predicate OnlyFor(svc: Service, acts: seq<Action>) {
    forall i | 0 <= i < |acts| :: acts[i].svc == svc
  }

  /** All that a service can have done while the other one rested. */
  ghost predicate OnlyBy(c: Config, svc: Service, d: Device, d': Device) {
    && (forall other | other != svc :: d'.Get(other) == d.Get(other))
    && (exists fs :: d'.tx == d.tx + Tagged(ResponseId(c, svc), fs))
    && |d'.log| >= |d.log| && (forall i | |d.log| <= i < |d'.log| :: d'.log[i].service == svc)
  }

  lemma NextOnlyBy(c: Config, d: Device, a: Action, other: Service)
    requires other != a.svc
    ensures var d' := Next(c, d, a);
      && d'.Get(other) == d.Get(other)
      && (d'.tx == d.tx || exists f :: d'.tx == d.tx + [Sent(ResponseId(c, a.svc), f)])
      && (d'.log == d.log || (|d'.log| == |d.log| + 1 && d'.log[|d.log|].service == a.svc && d.log <= d'.log))
  {
  }

  lemma TaggedMore(tx: seq<Sent>, id: int, fs: seq<Frame>, f: Frame)
    ensures tx + Tagged(id, fs) + [Sent(id, f)] == tx + Tagged(id, fs + [f])
  {
  }

  lemma OnlyByMore(c: Config, d: Device, svc: Service, x: Device, a: Action)
    requires OnlyBy(c, svc, d, x) && a.svc == svc
    ensures OnlyBy(c, svc, d, Next(c, x, a))
  {
    var id := ResponseId(c, svc);
    NextOnlyBy(c, x, a, if svc == Uds then S77 else Uds);
    var fs :| x.tx == d.tx + Tagged(id, fs);
    if Next(c, x, a).tx != x.tx {
      var f :| Next(c, x, a).tx == x.tx + [Sent(id, f)];
      TaggedMore(d.tx, id, fs, f);
    }
  }

  lemma {:induction false} RunOnlyBy(c: Config, d: Device, svc: Service, acts: seq<Action>)
    requires OnlyFor(svc, acts)
    ensures OnlyBy(c, svc, d, Run(c, d, acts))
  {
    if acts == [] {
      assert d.tx == d.tx + Tagged(ResponseId(c, svc), []);
    } else {
      var init := acts[..|acts| - 1];
      RunOnlyBy(c, d, svc, init);
      OnlyByMore(c, d, svc, Run(c, d, init), acts[|acts| - 1]);
    }
  }

  /** The store changes only with the log. */
  lemma {:induction false} StoreFollowsLog(c: Config, d: Device, acts: seq<Action>)
    requires |Run(c, d, acts).log| == |d.log|
    ensures Run(c, d, acts).store == d.store
  {
    if acts != [] {
      var init := acts[..|acts| - 1];
      RunExtends(c, d, init);
      NextLog(c, Run(c, d, init), acts[|acts| - 1]);
      StoreFollowsLog(c, d, init);
    }
  }

  /** The device after serving one request under a fault: the direct call of the handler on
      the store, the answer on the bus as the fault leaves it, and nothing else. */
  function Served(c: Config, d: Device, svc: Service, req: Request, fault: Fault): Device {
    var h := HandleOf(c, svc, req, d.store);
    d.Put(svc, FreshWorker).(
      store := h.store,
      tx := d.tx + Tagged(ResponseId(c, svc), Prompt(req) + AnswerFrames(h.response, fault)),
      log := d.log + [Dispatch(svc, req, d.store, h.response, Injected(h.response, fault))])
  }

  /** On its own a conversation, on every schedule and from any assembler state, takes
      the device to exactly the state that one direct call of the handler leaves, its
      answer damaged by the fault drawn in one step. */
  lemma ConversationServes(c: Config, d: Device, svc: Service, req: Request, acts: seq<Action>)
    requires Conversation(c, d, svc, req, acts) && OnlyFor(svc, acts)
    ensures exists t | 0 <= t < |acts| ::
      acts[t].Resume? && Run(c, d, acts) == Served(c, d, svc, req, acts[t].fault)
  {
    ClosedLoop(Idle, c, d, svc, req, acts);
    var p, t :| 0 <= t < |acts| && Answered(Idle, c, d, svc, req, acts, p, t);
    AnsweredAlone(c, d, svc, req, acts, p, t, Run(c, d, acts));
  }

  lemma AnsweredAlone(c: Config, d: Device, svc: Service, req: Request, acts: seq<Action>, p: nat, t: nat, d': Device)
    requires t < |acts| && Answered(Idle, c, d, svc, req, acts, p, t) && OnlyFor(svc, acts)
    requires d' == Run(c, d, acts)
    ensures acts[t].Resume? && d' == Served(c, d, svc, req, acts[t].fault)
  {
    RunOnlyBy(c, d, svc, acts);
    RunExtends(c, d, acts);
    OneEntry(d.log, d'.log, svc, p);
    ServedStore(c, d, acts, t);
    ServedFrames(c, d, svc, d', Prompt(req) + AnswerFrames(HandleOf(c, svc, req, d.store).response, acts[t].fault));
    SameDevice(c, d, svc, req, acts[t].fault, d');
  }

  lemma ServedFrames(c: Config, d: Device, svc: Service, d': Device, more: seq<Frame>)
    requires OnlyBy(c, svc, d, d') && Sends(c, d', svc) == Sends(c, d, svc) + more
    ensures d'.tx == d.tx + Tagged(ResponseId(c, svc), more)
  {
    var fs :| d'.tx == d.tx + Tagged(ResponseId(c, svc), fs);
    TaggedOnId(d.tx, ResponseId(c, svc), fs);
    SameFront(Sends(c, d, svc), fs, more);
  }

  lemma OneEntry(before: seq<Dispatch>, log: seq<Dispatch>, svc: Service, p: nat)
    requires before <= log && OnlyAt(log, |before|, svc, p)
    requires forall i | |before| <= i < |log| :: log[i].service == svc
    ensures p == |before| && log == before + [log[p]] && log[..p] == before && log[..p + 1] == log
  {
    AtPlace(log, |before|, svc, p, |before|);
    AtPlace(log, |before|, svc, p, |log| - 1);
  }

  lemma AtPlace(log: seq<Dispatch>, lo: nat, svc: Service, p: nat, i: nat)
    requires OnlyAt(log, lo, svc, p) && lo <= i < |log| && log[i].service == svc
    ensures i == p
  {
  }

  /** With one dispatch in step `t`, the store is that of the start before it and stays
      as it is after it. */
  lemma ServedStore(c: Config, d: Device, acts: seq<Action>, t: nat)
    requires t < |acts| && Run(c, d, acts[..t]).log == d.log
    requires Run(c, d, acts[..t + 1]).log == Run(c, d, acts).log
    ensures Run(c, d, acts[..t]).store == d.store
    ensures Run(c, d, acts[..t + 1]).store == Run(c, d, acts).store
  {
    StoreFollowsLog(c, d, acts[..t]);
    assert acts == acts[..t + 1] + acts[t + 1..];
    RunConcat(c, d, acts[..t + 1], acts[t + 1..]);
    StoreFollowsLog(c, Run(c, d, acts[..t + 1]), acts[t + 1..]);
  }

  lemma SameDevice(c: Config, d: Device, svc: Service, req: Request, fault: Fault, d': Device)
    requires forall other | other != svc :: d'.Get(other) == d.Get(other)
    requires var s := Served(c, d, svc, req, fault);
      d'.Get(svc) == s.Get(svc) && d'.store == s.store && d'.tx == s.tx && d'.log == s.log
    ensures d' == Served(c, d, svc, req, fault)
  {
    var s := Served(c, d, svc, req, fault);
    assert d'.Get(Uds) == s.Get(Uds) && d'.Get(S77) == s.Get(S77);
  }

  // ----- Write with either service, read with UDS ----------------------------

  /** The first eight bytes of a Service 77 request. */
  function S77Header(did: nat): seq<byte>
    requires did < 0x10000
  {
    [SID_SERVICE77, did / 256, did % 256, 0x43, 0x01, 0x82, did % 256, did / 256]
  }

  function UdsReadRequest(did: nat): seq<byte>
    requires did < 0x10000
  {
    [SID_READ, did / 256, did % 256]
  }

  function UdsReadAnswer(did: nat, value: seq<byte>): seq<byte>
    requires did < 0x10000
  {
    [0x62, did / 256, did % 256] + value
  }

  /** This request carries a value to a DID: with UDS one that is not protected, with
      Service 77 any, behind a length code or on its own. */
  predicate Carries(c: Config, svc: Service, req: seq<byte>, did: nat, value: seq<byte>)
    requires did < 0x10000
  {
    && value != []
    && match svc
       case Uds => did !in c.protected && req == [SID_WRITE, did / 256, did % 256] + value
       case S77 =>
         || (value[0] < 0x80 && req == S77Header(did) + value)
         || (|value| <= 15 && req == S77Header(did) + [0x80 + |value|] + value)
         || (|value| <= 15 && req == S77Header(did) + [0xB0 + |value|] + value)
  }

  /** A value that a request carries is stored just so. */
  lemma CarriedIsStored(c: Config, svc: Service, req: seq<byte>, did: nat, value: seq<byte>, store: Store)
    requires did < 0x10000 && did in store && Carries(c, svc, req, did, value)
    ensures HandleOf(c, svc, req, store).store == store[did := value]
    ensures var answer := HandleOf(c, svc, req, store).response;
      answer == if svc == Uds then Some([0x6E, did / 256, did % 256])
                else Some([0x77, did / 256, did % 256, 0x44])
  {
    if svc == Uds {
      assert Word(req[1], req[2]) == did && req[3..] == value;
    } else {
      assert Word(req[7], req[6]) == did;
      CarriedData(S77Header(did), req, value);
    }
  }

  lemma CarriedData(header: seq<byte>, req: seq<byte>, value: seq<byte>)
    requires |header| == 8 && value != []
    requires || (value[0] < 0x80 && req == header + value)
      || exists code: byte :: code >= 0x80 && req == header + [code] + value
    ensures |req| >= 9 && S77Data(req) == value
  {
    if value[0] < 0x80 && req == header + value {
      RawWriteIff(header, value);
    } else {
      var code: byte :| code >= 0x80 && req == header + [code] + value;
      assert req[9..] == value;
    }
  }

  /** A Service 77 request without a length code stores its value exactly when the first
      byte cannot be taken for one; otherwise that byte is lost. */
  lemma RawWriteIff(header: seq<byte>, value: seq<byte>)
    requires |header| == 8 && value != []
    ensures S77Data(header + value) == value <==> value[0] < 0x80
  {
    assert (header + value)[8..] == value && (header + value)[9..] == value[1..];
  }

  /** The documented length code in front of a value: its low nibble counts up to 15 bytes,
      beyond that it is 0 and `more` carries the length. */
  function LengthCoded(mark: byte, more: seq<byte>, value: seq<byte>): seq<byte>
    requires mark in {0x80, 0xB0}
  {
    (if |value| <= 15 then [mark + |value|] else [mark] + more) + value
  }

  /** A Service 77 request with a documented length code stores its value exactly when it has
      at most 15 bytes; the length of a longer one is taken for data and stored in front. */
  lemma CodedWriteIff(header: seq<byte>, mark: byte, more: seq<byte>, value: seq<byte>)
    requires |header| == 8 && mark in {0x80, 0xB0} && value != [] && more != []
    ensures S77Data(header + LengthCoded(mark, more, value)) == value <==> |value| <= 15
    ensures |value| > 15 ==> S77Data(header + LengthCoded(mark, more, value)) == more + value
  {
    var coded := LengthCoded(mark, more, value);
    assert (header + coded)[8] == coded[0] && (header + coded)[9..] == coded[1..];
    assert coded[1..] == if |value| <= 15 then value else more + value;
  }

  /** The shortest value that goes wrong: 16 bytes are stored as 17. */
  lemma SixteenBytesStoredWrong(header: seq<byte>, value: seq<byte>)
    requires |header| == 8 && |value| == 16
    ensures S77Data(header + [0xB0, 16] + value) == [16] + value
  {
    CodedWriteIff(header, 0xB0, [16], value);
    assert header + [0xB0, 16] + value == header + LengthCoded(0xB0, [16], value);
  }

  lemma UdsReadHandled(c: Config, did: nat, store: Store)
    requires did < 0x10000 && did in store
    ensures HandleOf(c, Uds, UdsReadRequest(did), store)
      == Handled(Some(UdsReadAnswer(did, store[did])), store)
  {
  }

  // ----- Two conversations on one run ----------------------------------------

  /** Steps lo, lo + 1, ..., hi - 1 of a run. */
  datatype Window = Window(lo: nat, hi: nat)

  /** In this window of a run a client has a conversation with a service, and `p` is the
      place of its request in the log. */
  predicate Converses(c: Config, init: Store, acts: seq<Action>, w: Window, svc: Service, req: Request, p: nat) {
    && w.lo <= w.hi <= |acts|
    && (var d := Run(c, Initial(init), acts[..w.lo]);
        && Conversation(c, d, svc, req, acts[w.lo..w.hi])
        && OnlyAt(Run(c, Initial(init), acts[..w.hi]).log, |d.log|, svc, p))
  }

  predicate Writes(e: Dispatch, did: int) { AcceptedWrite(e).Some? && AcceptedWrite(e).value.0 == did }

  /** What was accepted last is the last value. */
  lemma {:induction false} LastValueIs(initial: seq<byte>, log: seq<Dispatch>, did: int, p: nat, value: seq<byte>)
    requires p < |log| && AcceptedWrite(log[p]) == Some((did, value))
    requires forall i | p < i < |log| :: !Writes(log[i], did)
    ensures LastValue(initial, log, did, {Uds, S77}) == value
  {
    var n := |log| - 1;
    if p < n {
      assert !Writes(log[n], did);
      LastValueIs(initial, log[..n], did, p, value);
    }
  }

  /** The run up to the end of a window, cut where the window begins. */
  lemma Cut(c: Config, init: Store, acts: seq<Action>, w: Window)
    requires w.lo <= w.hi <= |acts|
    ensures Run(c, Initial(init), acts[..w.hi]) == Run(c, Run(c, Initial(init), acts[..w.lo]), acts[w.lo..w.hi])
    ensures Run(c, Initial(init), acts[..w.hi]).log <= Run(c, Initial(init), acts).log
  {
    assert acts[..w.hi] == acts[..w.lo] + acts[w.lo..w.hi] && acts == acts[..w.hi] + acts[w.hi..];
    RunConcat(c, Initial(init), acts[..w.lo], acts[w.lo..w.hi]);
    RunConcat(c, Initial(init), acts[..w.hi], acts[w.hi..]);
    RunExtends(c, Run(c, Initial(init), acts[..w.hi]), acts[w.hi..]);
  }

  /** In this window of a run a client in state `client` reassembles `got` from what the
      service sends. */
  predicate Gets(client: State, c: Config, init: Store, acts: seq<Action>, w: Window, svc: Service,
                 got: seq<seq<byte>>)
  {
    && w.lo <= w.hi <= |acts|
    && (var d, d' := Run(c, Initial(init), acts[..w.lo]), Run(c, Initial(init), acts[..w.hi]);
        Sends(c, d, svc) <= Sends(c, d', svc) && Received(client, c, svc, d, d') == got)
  }

  /** What a conversation on a run leaves in the log and at the client. */
  lemma Conversed(client: State, c: Config, init: Store, acts: seq<Action>, w: Window, svc: Service,
                  req: Request, p: nat, log: seq<Dispatch>)
    returns (t: nat, f: Fault)
    requires Converses(c, init, acts, w, svc, req, p) && log == Run(c, Initial(init), acts).log
    ensures w.lo <= t < w.hi <= |acts| && acts[t] == Resume(svc, f)
    ensures p < |log| && Serves(c, svc, req, log[p])
    ensures Gets(client, c, init, acts, w, svc, Heard(log[p].response, f))
  {
    var d, d', part := Run(c, Initial(init), acts[..w.lo]), Run(c, Initial(init), acts[..w.hi]), acts[w.lo..w.hi];
    Cut(c, init, acts, w);
    var i, drawn := EntryOf(client, c, d, svc, req, part, d', p, log);
    t, f := w.lo + i, drawn;
    InWindow(acts, w, i, t, Resume(svc, f));
  }

  lemma InWindow(acts: seq<Action>, w: Window, i: nat, t: nat, a: Action)
    requires w.lo <= w.hi <= |acts| && i < w.hi - w.lo && t == w.lo + i && acts[w.lo..w.hi][i] == a
    ensures w.lo <= t < w.hi && acts[t] == a
  {
  }

  /** The dispatch of a conversation, at the only place where there is one. */
  lemma EntryOf(client: State, c: Config, d: Device, svc: Service, req: Request, acts: seq<Action>,
                d': Device, p: nat, log: seq<Dispatch>)
    returns (t: nat, f: Fault)
    requires Conversation(c, d, svc, req, acts) && d' == Run(c, d, acts) && OnlyAt(d'.log, |d.log|, svc, p)
    requires d'.log <= log
    ensures t < |acts| && acts[t] == Resume(svc, f)
    ensures p < |log| && Serves(c, svc, req, log[p]) && Sends(c, d, svc) <= Sends(c, d', svc)
    ensures Received(client, c, svc, d, d') == Heard(log[p].response, f)
  {
    ClosedLoop(client, c, d, svc, req, acts);
    var q, i :| 0 <= i < |acts| && Answered(client, c, d, svc, req, acts, q, i);
    AnsweredEntry(client, c, d, svc, req, acts, q, i, d');
    assert q == p;
    t, f := i, acts[i].fault;
  }

  lemma AnsweredEntry(client: State, c: Config, d: Device, svc: Service, req: Request, acts: seq<Action>,
                      p: nat, t: nat, d': Device)
    requires t < |acts| && Answered(client, c, d, svc, req, acts, p, t) && d' == Run(c, d, acts)
    ensures OnlyAt(d'.log, |d.log|, svc, p) && acts[t].Resume? && acts[t].svc == svc
    ensures Serves(c, svc, req, d'.log[p]) && Sends(c, d, svc) <= Sends(c, d', svc)
    ensures Received(client, c, svc, d, d') == Heard(d'.log[p].response, acts[t].fault)
  {
  }

  predicate NoWriteBetween(log: seq<Dispatch>, did: int, p: nat, q: nat) {
    forall i | p < i < q && i < |log| :: !Writes(log[i], did)
  }

  lemma ReadValue(c: Config, init: Store, acts: seq<Action>, svc: Service, req: Request, did: nat, value: seq<byte>,
                  p: nat, q: nat, log: seq<Dispatch>)
    requires did < 0x10000 && did in init && Carries(c, svc, req, did, value)
    requires log == Run(c, Initial(init), acts).log && p < q < |log| && NoWriteBetween(log, did, p, q)
    requires Serves(c, svc, req, log[p]) && Serves(c, Uds, UdsReadRequest(did), log[q])
    ensures log[q].response == Some(UdsReadAnswer(did, value))
  {
    EntryOfRun(c, init, acts, p, did, log[p]);
    EntryOfRun(c, init, acts, q, did, log[q]);
    WriteAccepted(c, svc, req, did, value, log[p]);
    assert log[..q][p] == log[p];
    LastValueIs(init[did], log[..q], did, p, value);
    UdsReadHandled(c, did, log[q].before);
  }

  lemma WriteAccepted(c: Config, svc: Service, req: Request, did: nat, value: seq<byte>, e: Dispatch)
    requires did < 0x10000 && Carries(c, svc, req, did, value)
    requires Serves(c, svc, req, e) && did in e.before
    ensures AcceptedWrite(e) == Some((did, value))
  {
    CarriedIsStored(c, svc, req, did, value, e.before);
    if svc == Uds {
      assert Word(req[1], req[2]) == did && req[3..] == value;
    } else {
      assert Word(req[7], req[6]) == did;
      CarriedData(S77Header(did), req, value);
    }
  }

  /** A client has got what the fault of one of these steps leaves of an answer, so the
      answer itself when no fault is drawn. */
  ghost predicate Hears(got: seq<seq<byte>>, answer: seq<byte>, acts: seq<Action>, w: Window, svc: Service)
  {
    && w.lo <= w.hi <= |acts|
    && (exists t | w.lo <= t < w.hi ::
          acts[t].Resume? && acts[t].svc == svc && got == Heard(Some(answer), acts[t].fault))
    && ((forall t | w.lo <= t < w.hi :: acts[t].Resume? && acts[t].svc == svc ==> acts[t].fault == NoFault)
        ==> got == [answer])
  }

  ghost predicate ReadsBack(client: State, c: Config, init: Store, acts: seq<Action>, w: Window, answer: seq<byte>) {
    exists got :: Gets(client, c, init, acts, w, Uds, got) && Hears(got, answer, acts, w, Uds)
  }

  lemma HearsAt(answer: seq<byte>, acts: seq<Action>, w: Window, svc: Service, t: nat)
    requires w.lo <= t < w.hi <= |acts| && acts[t].Resume? && acts[t].svc == svc
    ensures Hears(Heard(Some(answer), acts[t].fault), answer, acts, w, svc)
  {
  }

  /** A value written with either service is what a UDS client reads, on every schedule of
      the two conversations among any other traffic, if no write to that DID is accepted
      between the two dispatches: the read answer as the fault of one step leaves it, and
      the value itself when no fault is drawn. */
  lemma WriteThenRead(client: State, c: Config, init: Store, acts: seq<Action>, write: Window, read: Window,
                      svc: Service, req: Request, did: nat, value: seq<byte>, p: nat, q: nat)
    requires did < 0x10000 && did in init && Carries(c, svc, req, did, value)
    requires Converses(c, init, acts, write, svc, req, p)
    requires Converses(c, init, acts, read, Uds, UdsReadRequest(did), q)
    requires p < q && NoWriteBetween(Run(c, Initial(init), acts).log, did, p, q)
    ensures ReadsBack(client, c, init, acts, read, UdsReadAnswer(did, value))
  {
    var log, answer := Run(c, Initial(init), acts).log, UdsReadAnswer(did, value);
    var t, f := Conversed(client, c, init, acts, write, svc, req, p, log);
    t, f := Conversed(client, c, init, acts, read, Uds, UdsReadRequest(did), q, log);
    ReadValue(c, init, acts, svc, req, did, value, p, q, log);
    HearsAt(answer, acts, read, Uds, t);
  }
}

/** What holds of the shared store over every run: its history, its bound, and what
    a client reads of it. */
module DeviceHistory {
  import opened Bytes
  import opened Bus
  import opened IsoTp
  import opened Faults
  import opened Handlers
  import opened Device
  import opened DeviceSafety

  // ----- The log explains the store ------------------------------------------

  /** The store after a list of dispatches. */
  function Replay(c: Config, init: Store, log: seq<Dispatch>): Store {
    if log == [] then init
    else
      var e := log[|log| - 1];
      HandleOf(c, e.service, e.request, Replay(c, init, log[..|log| - 1])).store
  }

  /** Entry `i` saw the store its predecessors left and holds the handler's answer. */
  predicate EntryExplained(c: Config, init: Store, log: seq<Dispatch>, i: nat)
    requires i < |log|
  {
    && log[i].before == Replay(c, init, log[..i])
    && log[i].response == HandleOf(c, log[i].service, log[i].request, log[i].before).response
    && 1 <= |log[i].request| <= MAX_PAYLOAD
  }

  ghost predicate Explained(c: Config, init: Store, d: Device) {
    && d.store == Replay(c, init, d.log)
    && forall i | 0 <= i < |d.log| :: EntryExplained(c, init, d.log, i)
  }

  /** What becomes of the fault that a step draws: it strikes if the response has frames
      for it to strike. */
  function Injected(response: Option<seq<byte>>, fault: Fault): Fault {
    if response.Some? && |response.value| <= MAX_PAYLOAD && Possible(fault, |Frames(response.value)|)
    then fault else NoFault
  }

  /** This step is the dispatch `e`: the worker takes the frame that completes the
      request, the handler meets the store of the device, and no frame of the answer is
      sent yet. */
  ghost predicate Dispatches(c: Config, d: Device, a: Action, d': Device, e: Dispatch) {
    var w := d.Get(e.service);
    && a.Resume? && a.svc == e.service
    && w.phase == Ready && w.queue != [] && Step(w.rx, w.queue[0]).payload == Some(e.request)
    && e.before == d.store
    && Handled(e.response, d'.store) == HandleOf(c, e.service, e.request, d.store)
    && e.fault == Injected(e.response, a.fault)
    && (match e.response
        case None => d'.Get(e.service).phase == Ready
        case Some(r) =>
          if |r| > MAX_PAYLOAD then d'.Get(e.service).phase == Crashed
          else
            && Possible(e.fault, |Frames(r)|)
            && d'.Get(e.service).phase == Sending(Apply(Frames(r), e.fault), 0))
    && d'.tx == d.tx && d'.log == d.log + [e]
  }

  /** A step either leaves store and log alone or is one dispatch. */
  lemma NextLog(c: Config, d: Device, a: Action)
    ensures var d' := Next(c, d, a);
      || (d'.store == d.store && d'.log == d.log)
      || (|d'.log| == |d.log| + 1 && Dispatches(c, d, a, d', d'.log[|d.log|]))
  {
    var w := d.Get(a.svc);
    if a.Resume? && w.phase == Ready && w.queue != [] && Step(w.rx, w.queue[0]).payload.Some? {
      DispatchStep(c, d, a.svc, a.fault);
    }
  }

  lemma DispatchStep(c: Config, d: Device, svc: Service, fault: Fault)
    requires var w := d.Get(svc); w.phase == Ready && w.queue != [] && Step(w.rx, w.queue[0]).payload.Some?
    ensures var d' := Resumed(c, d, svc, fault);
      |d'.log| == |d.log| + 1 && Dispatches(c, d, Resume(svc, fault), d', d'.log[|d.log|])
  {
    ResumedReady(c, d, svc, fault);
  }

  /** A fault drawn in the step that dispatches a request is the one that damages its
      response, exactly the frames it leaves are to be sent: 1 to 254 added to the DID, 1 to
      3 bytes overwritten, any frame behind the first. */
  lemma FaultIsInjected(c: Config, d: Device, svc: Service, f: Fault, r: seq<byte>)
    requires var w := d.Get(svc);
      && w.phase == Ready && w.queue != [] && Step(w.rx, w.queue[0]).payload.Some?
      && HandleOf(c, svc, Step(w.rx, w.queue[0]).payload.value, d.store).response == Some(r)
    requires |r| <= 4095
    requires match f
      case WrongDid(delta) => 1 <= delta < 0xFF
      case ShortPayload(n) => n in {1, 2, 3}
      case DropRandomCf(i) => |r| <= 7 || 1 <= i < |Frames(r)|
      case WrongSeq(i) => |r| <= 7 || 1 <= i < |Frames(r)|
      case DuplicateCf(i) => |r| <= 7 || 1 <= i < |Frames(r)|
      case _ => true
    ensures var d' := Next(c, d, Resume(svc, f));
      d'.Get(svc).phase == Sending(Apply(Frames(r), f), 0) && d'.tx == d.tx
  {
    DispatchStep(c, d, svc, f);
  }

  lemma NextExplained(c: Config, init: Store, d: Device, a: Action)
    requires Explained(c, init, d)
    ensures Explained(c, init, Next(c, d, a))
  {
    var d' := Next(c, d, a);
    NextLog(c, d, a);
    if d'.log != d.log {
      var n := |d.log|;
      assert d'.log == d.log + [d'.log[n]];
      forall i | 0 <= i < |d'.log|
        ensures EntryExplained(c, init, d'.log, i)
      {
        assert d'.log[..i] == d.log[..i];
        assert i < n ==> EntryExplained(c, init, d.log, i);
      }
    }
  }

  lemma {:induction false} RunExplained(c: Config, init: Store, acts: seq<Action>)
    ensures Explained(c, init, Run(c, Initial(init), acts))
  {
    if acts != [] {
      RunExplained(c, init, acts[..|acts| - 1]);
      NextExplained(c, init, Run(c, Initial(init), acts[..|acts| - 1]), acts[|acts| - 1]);
    }
  }

  // ----- Store history -------------------------------------------------------

  /** The write that a dispatch performed, judged by its request and its answer. */
  function AcceptedWrite(e: Dispatch): Option<(int, seq<byte>)> {
    var q := e.request;
    match e.service
    case Uds =>
      if |q| >= 4 && q[0] == SID_WRITE && e.response == Some([0x6E, q[1], q[2]])
      then Some((Word(q[1], q[2]), q[3..])) else None
    case S77 =>
      if |q| >= 9 && q[0] == SID_SERVICE77 && e.response == Some([0x77, q[1], q[2], 0x44])
      then Some((Word(q[7], q[6]), S77Data(q))) else None
  }

  /** The data of the last accepted write to `did` by one of `services`, or else the
      initial value. */
  function LastValue(initial: seq<byte>, log: seq<Dispatch>, did: int, services: set<Service>): seq<byte> {
    if log == [] then initial
    else
      var e := log[|log| - 1];
      var w := AcceptedWrite(e);
      if e.service in services && w.Some? && w.value.0 == did then w.value.1
      else LastValue(initial, log[..|log| - 1], did, services)
  }

  /** One dispatch changes the store exactly as its accepted write says. */
  lemma DispatchEffect(c: Config, e: Dispatch, after: Store)
    requires Handled(e.response, after) == HandleOf(c, e.service, e.request, e.before)
    ensures match AcceptedWrite(e)
      case None => after == e.before
      case Some(w) =>
        && w.0 in e.before && after == e.before[w.0 := w.1]
        && (e.service == Uds ==> w.0 !in c.protected)
  {
  }

  lemma {:induction false} ReplayIsLastValue(c: Config, init: Store, log: seq<Dispatch>, did: int)
    requires forall i | 0 <= i < |log| :: EntryExplained(c, init, log, i)
    ensures Replay(c, init, log).Keys == init.Keys
    ensures did in init ==> Replay(c, init, log)[did] == LastValue(init[did], log, did, {Uds, S77})
    ensures did in init && did in c.protected ==>
      Replay(c, init, log)[did] == LastValue(init[did], log, did, {S77})
  {
    if log != [] {
      var n := |log| - 1;
      assert EntryExplained(c, init, log, n);
      forall i | 0 <= i < n
        ensures EntryExplained(c, init, log[..n], i)
      {
        assert EntryExplained(c, init, log, i) && log[..n][..i] == log[..i];
      }
      ReplayIsLastValue(c, init, log[..n], did);
      DispatchEffect(c, log[n], Replay(c, init, log));
    }
  }

  /** Over every interleaving of both services: no DID appears or disappears, every
      value is that of the last accepted write, and a protected value is that of the
      last accepted Service 77 write whatever UDS clients send. */
  lemma StoreHistory(c: Config, init: Store, acts: seq<Action>, did: int, d: Device)
    requires d == Run(c, Initial(init), acts)
    ensures
      && d.store.Keys == init.Keys
      && (did in init ==> d.store[did] == LastValue(init[did], d.log, did, {Uds, S77}))
      && (did in init && did in c.protected ==> d.store[did] == LastValue(init[did], d.log, did, {S77}))
  {
    RunExplained(c, init, acts);
    ReplayIsLastValue(c, init, d.log, did);
  }

  /** Entry `i` of the log of a run: the handler's answer on a store with the DIDs of the
      start and the values written last. */
  lemma EntryOfRun(c: Config, init: Store, acts: seq<Action>, i: nat, did: int, e: Dispatch)
    requires i < |Run(c, Initial(init), acts).log| && e == Run(c, Initial(init), acts).log[i]
    ensures 1 <= |e.request| <= MAX_PAYLOAD && e.before.Keys == init.Keys
    ensures e.response == HandleOf(c, e.service, e.request, e.before).response
    ensures did in init ==>
      e.before[did] == LastValue(init[did], Run(c, Initial(init), acts).log[..i], did, {Uds, S77})
  {
    RunExplained(c, init, acts);
    var log := Run(c, Initial(init), acts).log;
    assert EntryExplained(c, init, log, i);
    forall j | 0 <= j < i
      ensures EntryExplained(c, init, log[..i], j)
    {
      assert EntryExplained(c, init, log, j) && log[..i][..j] == log[..j];
    }
    ReplayIsLastValue(c, init, log[..i], did);
  }

  /** Whether this write is accepted, judged by the request and the DIDs known. */
  predicate Acceptable(c: Config, dids: set<int>, svc: Service, q: seq<byte>) {
    match svc
    case Uds => |q| >= 4 && q[0] == 0x2E && q[1] as int * 256 + q[2] in dids - c.protected
    case S77 => |q| >= 9 && q[0] == 0x77 && q[6] as int + q[7] as int * 256 in dids
  }

  /** Which writes a run accepts is decided by the requests and the DIDs of the start alone:
      the services never get in each other's way. */
  lemma AcceptedIff(c: Config, init: Store, acts: seq<Action>, i: nat)
    requires i < |Run(c, Initial(init), acts).log|
    ensures var e := Run(c, Initial(init), acts).log[i];
      AcceptedWrite(e).Some? <==> Acceptable(c, init.Keys, e.service, e.request)
  {
    var e := Run(c, Initial(init), acts).log[i];
    EntryOfRun(c, init, acts, i, 0, e);
    AcceptedByHandler(c, e);
  }

  lemma AcceptedByHandler(c: Config, e: Dispatch)
    requires e.request != [] && e.response == HandleOf(c, e.service, e.request, e.before).response
    ensures AcceptedWrite(e).Some? <==> Acceptable(c, e.before.Keys, e.service, e.request)
  {
    if e.service == Uds && e.request[0] == SID_WRITE {
      UdsWriteIff(c.protected, e.request, e.before);
    } else if e.service == S77 {
      S77WriteIff(e.request, e.before);
    }
  }

  predicate PositiveRead(q: seq<byte>) { q != [] && q[0] == 0x62 }

  /** Every UDS read that succeeds answers with the last value written before it, by
      either service. */
  lemma ReadsSeeLastWrite(c: Config, init: Store, acts: seq<Action>, i: nat)
    requires i < |Run(c, Initial(init), acts).log|
    ensures var log := Run(c, Initial(init), acts).log;
      var e := log[i];
      e.service == Uds && e.response.Some? && PositiveRead(e.response.value) ==>
        && |e.request| >= 3
        && var did := Word(e.request[1], e.request[2]);
           && did in init
           && e.response.value
                == [0x62, e.request[1], e.request[2]] + LastValue(init[did], log[..i], did, {Uds, S77})
  {
    var e := Run(c, Initial(init), acts).log[i];
    EntryOfRun(c, init, acts, i, if |e.request| >= 3 then Word(e.request[1], e.request[2]) else 0, e);
    PositiveReadOnly(c, e.request, e.before);
  }

  /** Only a successful read answers 0x62. */
  lemma PositiveReadOnly(c: Config, req: seq<byte>, store: Store)
    requires req != []
    ensures var r := UdsHandle(c.protected, req, store).response;
      r.Some? && PositiveRead(r.value) ==>
        && |req| >= 3 && req[0] == SID_READ && Word(req[1], req[2]) in store
        && r.value == [0x62, req[1], req[2]] + store[Word(req[1], req[2])]
  {
  }

  // ----- The length bound ----------------------------------------------------

  lemma HandlersKeepBound(c: Config, svc: Service, req: seq<byte>, store: Store)
    requires Bounded(store) && |req| <= MAX_PAYLOAD
    ensures var h := HandleOf(c, svc, req, store);
      && Bounded(h.store)
      && (h.response.Some? ==> |h.response.value| <= MAX_PAYLOAD)
  {
  }

  predicate Alive(d: Device) { !d.uds.phase.Crashed? && !d.s77.phase.Crashed? }

  lemma NextKeepsBound(c: Config, d: Device, a: Action)
    requires Bounded(d.store) && Alive(d)
    ensures Bounded(Next(c, d, a).store) && Alive(Next(c, d, a))
  {
    var w := d.Get(a.svc);
    if a.Resume? && w.phase == Ready && w.queue != [] {
      var r := Step(w.rx, w.queue[0]);
      if r.payload.Some? {
        HandlersKeepBound(c, a.svc, r.payload.value, d.store);
      }
    }
  }

  lemma {:induction false} RunKeepsBound(c: Config, init: Store, acts: seq<Action>)
    requires Bounded(init)
    ensures Bounded(Run(c, Initial(init), acts).store) && Alive(Run(c, Initial(init), acts))
  {
    if acts != [] {
      RunKeepsBound(c, init, acts[..|acts| - 1]);
      NextKeepsBound(c, Run(c, Initial(init), acts[..|acts| - 1]), acts[|acts| - 1]);
    }
  }

  lemma RunSnoc(c: Config, d: Device, acts: seq<Action>, a: Action)
    ensures Run(c, d, acts + [a]) == Next(c, Run(c, d, acts), a)
  {
    assert (acts + [a])[..|acts|] == acts;
  }

  lemma {:induction false} RunConcat(c: Config, d: Device, a: seq<Action>, b: seq<Action>)
    ensures Run(c, d, a + b) == Run(c, Run(c, d, a), b)
  {
    if b == [] {
      assert a + b == a;
    } else {
      var n := |b| - 1;
      assert a + b == a + b[..n] + [b[n]];
      RunConcat(c, d, a, b[..n]);
      RunSnoc(c, d, a + b[..n], b[n]);
    }
  }

  /** A client kills the UDS worker by reading a value that does not fit. */
  lemma OversizedReadCrashes(c: Config, init: Store, did: int)
    requires did in init && 0 <= did < 0x10000 && |init[did]| > MAX_VALUE
    ensures var req: Frame := [0x03, SID_READ, did / 256, did % 256, 0xCC, 0xCC, 0xCC, 0xCC];
      !Alive(Run(c, Initial(init), [Arrive(Uds, req), Resume(Uds, NoFault)]))
  {
    var req: Frame := [0x03, SID_READ, did / 256, did % 256, 0xCC, 0xCC, 0xCC, 0xCC];
    var a, b := Arrive(Uds, req), Resume(Uds, NoFault);
    assert [] + [a] == [a] && [a] + [b] == [a, b];
    var d := Next(c, Initial(init), a);
    assert Run(c, Initial(init), [a]) == d by { RunSnoc(c, Initial(init), [], a); }
    assert d.uds.queue == [req];
    assert Step(Idle, req) == Reaction(Idle, Some(req[1..4]), None);
    assert Word(req[1..4][1], req[1..4][2]) == did;
    RunSnoc(c, Initial(init), [a], b);
  }

  /** No run ever makes `segment` raise, if and only if the values fit at the start. */
  lemma NeverRaisesIff(c: Config, init: Store)
    ensures (forall acts :: Alive(Run(c, Initial(init), acts))) <==> Bounded(init)
  {
    if Bounded(init) {
      forall acts
        ensures Alive(Run(c, Initial(init), acts))
      {
        RunKeepsBound(c, init, acts);
      }
    } else {
      var did :| did in init && 0 <= did < 0x10000 && |init[did]| > MAX_VALUE;
      OversizedReadCrashes(c, init, did);
    }
  }

  // ----- No torn reads -------------------------------------------------------

  lemma {:induction false} RunExtends(c: Config, d: Device, acts: seq<Action>)
    ensures d.log <= Run(c, d, acts).log && d.tx <= Run(c, d, acts).tx
  {
    if acts != [] {
      var d' := Run(c, d, acts[..|acts| - 1]);
      RunExtends(c, d, acts[..|acts| - 1]);
      NextLog(c, d', acts[|acts| - 1]);
      NextSends(c, d', acts[|acts| - 1]);
    }
  }

  lemma NextSends(c: Config, d: Device, a: Action)
    ensures d.tx <= Next(c, d, a).tx
  {
  }

  lemma TakeTwice<T>(a: seq<T>, n: nat, t: nat)
    requires t <= n <= |a|
    ensures a[..n][..t] == a[..t] && (t < n ==> a[..n][t] == a[t])
  {
  }

  lemma SamePlace<T>(a: seq<T>, b: seq<T>, i: nat)
    requires a <= b && i < |a|
    ensures b[..i] == a[..i] && b[i] == a[i]
  {
  }

  /** Every dispatch of a run is one of its steps: the store that it saw was the store of
      the device at that instant. */
  lemma {:induction false} SeenAtOneInstant(c: Config, d: Device, acts: seq<Action>, i: nat) returns (t: nat)
    requires |d.log| <= i < |Run(c, d, acts).log|
    ensures t < |acts|
    ensures var log := Run(c, d, acts).log;
      && Run(c, d, acts[..t]).log == log[..i]
      && Dispatches(c, Run(c, d, acts[..t]), acts[t], Run(c, d, acts[..t + 1]), log[i])
  {
    var n := |acts| - 1;
    var before := Run(c, d, acts[..n]);
    NextLog(c, before, acts[n]);
    if i < |before.log| {
      t := SeenAtOneInstant(c, d, acts[..n], i);
      TakeTwice(acts, n, t);
      TakeTwice(acts, n, t + 1);
      SamePlace(before.log, Run(c, d, acts).log, i);
    } else {
      t := n;
      assert acts[..t + 1] == acts;
    }
  }

  lemma NextSendsOne(c: Config, d: Device, a: Action)
    ensures var d' := Next(c, d, a);
      d'.tx == d.tx
      || (a.Resume? && |d'.tx| == |d.tx| + 1 && d.tx <= d'.tx
          && d'.tx[|d.tx|].id == c.txId + if a.svc == Uds then 0x10 else 0x12)
  {
  }

  /** Every frame that a device puts on the bus goes out in one step of one worker, under
      the response ID of its service. */
  lemma {:induction false} SentInOneStep(c: Config, d: Device, acts: seq<Action>, i: nat) returns (t: nat)
    requires |d.tx| <= i < |Run(c, d, acts).tx|
    ensures t < |acts| && acts[t].Resume?
    ensures |Run(c, d, acts[..t]).tx| == i && |Run(c, d, acts[..t + 1]).tx| == i + 1
    ensures Run(c, d, acts).tx[i].id == c.txId + if acts[t].svc == Uds then 0x10 else 0x12
  {
    var n := |acts| - 1;
    var before := Run(c, d, acts[..n]);
    NextSendsOne(c, before, acts[n]);
    if i < |before.tx| {
      t := SentInOneStep(c, d, acts[..n], i);
      TakeTwice(acts, n, t);
      TakeTwice(acts, n, t + 1);
      SamePlace(before.tx, Run(c, d, acts).tx, i);
    } else {
      t := n;
      assert acts[..t + 1] == acts;
    }
  }

  lemma {:induction false} ResponseInLog(log: seq<Dispatch>, svc: Service, q: seq<byte>) returns (i: nat)
    requires q in Responses(log, svc)
    ensures i < |log| && log[i].service == svc && log[i].response == Some(q)
  {
    var e := log[|log| - 1];
    if e.service == svc && e.response == Some(q) {
      i := |log| - 1;
    } else {
      i := ResponseInLog(log[..|log| - 1], svc, q);
    }
  }

  /** This step is the dispatch of a UDS read whose answer is `q`: just then the value is
      in the store, and behind the step all frames of the answer are still to be sent. */
  predicate ReadStep(d: Device, a: Action, d': Device, q: seq<byte>)
    requires 3 <= |q| <= MAX_PAYLOAD
  {
    && a == Resume(Uds, NoFault)
    && d.uds.phase == Ready && d.uds.queue != []
    && (var req := Step(d.uds.rx, d.uds.queue[0]).payload;
        req.Some? && |req.value| >= 3 && req.value[..3] == [SID_READ, q[1], q[2]])
    && Word(q[1], q[2]) in d.store && q[3..] == d.store[Word(q[1], q[2])]
    && d'.uds.phase == Sending(Frames(q), 0) && d'.tx == d.tx
  }

  predicate ReadAt(c: Config, init: Store, acts: seq<Action>, t: nat, q: seq<byte>)
    requires t < |acts| && 3 <= |q| <= MAX_PAYLOAD
  {
    ReadStep(Run(c, Initial(init), acts[..t]), acts[t], Run(c, Initial(init), acts[..t + 1]), q)
  }

  /** Whatever Service 77 writes while a UDS read response is on its way: a value that a
      client reassembles, whatever state it started from, was the stored value at the one
      step that dispatched the read. */
  lemma NoTornReads(client: State, c: Config, init: Store, acts: seq<Action>, d: Device, q: seq<byte>)
    requires FaultFree(acts) && d == Run(c, Initial(init), acts)
    requires q in Delivered(client, OnId(d.tx, ResponseId(c, Uds)))
    requires PositiveRead(q)
    ensures 3 <= |q| <= MAX_PAYLOAD
    ensures exists t | 0 <= t < |acts| :: ReadAt(c, init, acts, t, q)
  {
    var got := Delivered(client, OnId(d.tx, ResponseId(c, Uds)));
    FaultFreeRunsDeliverResponses(client, c, init, acts, Uds, d);
    SubsequenceShorter(got, Responses(d.log, Uds));
    DeliveredFits(client, OnId(d.tx, ResponseId(c, Uds)), q);
    var i := ResponseInLog(d.log, Uds, q);
    var t := SeenAtOneInstant(c, Initial(init), acts, i);
    ReadDispatched(c, Run(c, Initial(init), acts[..t]), acts[t], Run(c, Initial(init), acts[..t + 1]), d.log[i], q);
    assert ReadAt(c, init, acts, t, q);
  }

  lemma {:induction false} DeliveredFits(s: State, fs: seq<Frame>, q: seq<byte>)
    requires q in Delivered(s, fs)
    ensures 1 <= |q| <= MAX_PAYLOAD
    decreases |fs|
  {
    if Step(s, fs[0]).payload != Some(q) {
      DeliveredFits(Step(s, fs[0]).next, fs[1..], q);
    }
  }

  lemma ReadDispatched(c: Config, d: Device, a: Action, d': Device, e: Dispatch, q: seq<byte>)
    requires Dispatches(c, d, a, d', e) && a.fault == NoFault
    requires e.service == Uds && e.response == Some(q) && PositiveRead(q) && |q| <= MAX_PAYLOAD
    ensures |q| >= 3 && ReadStep(d, a, d', q)
  {
    PositiveReadOnly(c, e.request, e.before);
    assert e.request[..3] == [SID_READ, q[1], q[2]];
  }
}

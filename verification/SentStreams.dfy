/** The frames on one response ID: fronts of responses, in order, with Flow Control among
    them; what a client makes of them, also when some are lost on the way. */
module SentStreams {
  import opened Bytes
  import opened IsoTp
  import opened IsoTpStreams
  import opened IsoTpTheorems
  import opened IsoTpLoss
  import opened Faults
  import opened FaultOutcomes

  // ----- What a stream is made of --------------------------------------------

  /** A frame of type 3 or above, or the first `k` frames of a response. */
  datatype Part = Stray(frame: Frame) | Front(draw: LegalDraw, k: nat) {
    predicate Legal() {
      match this
      case Stray(f) => FrameType(f) >= 3
      case Front(d, k) => k <= |Faulty(d)|
    }

    function Frames(): seq<Frame>
      requires Legal()
    {
      match this
      case Stray(f) => [f]
      case Front(d, k) => Faulty(d)[..k]
    }

    function Draws(): seq<LegalDraw> {
      match this
      case Stray(_) => []
      case Front(d, _) => [d]
    }
  }

  type LegalPart = p: Part | p.Legal() witness Stray(FLOW_CONTROL)

  function FramesOf(parts: seq<LegalPart>): seq<Frame> {
    if parts == [] then [] else FramesOf(parts[..|parts| - 1]) + parts[|parts| - 1].Frames()
  }

  function DrawsOf(parts: seq<LegalPart>): seq<LegalDraw> {
    if parts == [] then [] else DrawsOf(parts[..|parts| - 1]) + parts[|parts| - 1].Draws()
  }

  /** `sent` is made of fronts of the responses `ds`, each at most once and in order, and
      of frames that no receiver heeds. */
  ghost predicate Composed(sent: seq<Frame>, ds: seq<LegalDraw>) {
    exists parts :: FramesOf(parts) == sent && DrawsOf(parts) == ds
  }

  lemma OneMorePart(parts: seq<LegalPart>, p: LegalPart)
    ensures FramesOf(parts + [p]) == FramesOf(parts) + p.Frames()
    ensures DrawsOf(parts + [p]) == DrawsOf(parts) + p.Draws()
  {
    assert (parts + [p])[..|parts|] == parts;
  }

  lemma NothingComposed()
    ensures Composed([], [])
  {
    assert FramesOf([]) == [] && DrawsOf([]) == [];
  }

  lemma StrayPart(parts: seq<LegalPart>, f: Frame)
    requires FrameType(f) >= 3
    ensures FramesOf(parts + [Stray(f)]) == FramesOf(parts) + [f]
    ensures DrawsOf(parts + [Stray(f)]) == DrawsOf(parts)
  {
    OneMorePart(parts, Stray(f));
    assert DrawsOf(parts) + [] == DrawsOf(parts);
  }

  lemma FrontPart(parts: seq<LegalPart>, d: LegalDraw, k: nat, sent: seq<Frame>)
    requires k <= |Faulty(d)| && sent == FramesOf(parts) + Faulty(d)[..k]
    ensures Composed(sent, DrawsOf(parts) + [d])
  {
    var more: seq<LegalPart> := parts + [Front(d, k)];
    OneMorePart(parts, Front(d, k));
    assert FramesOf(more) == sent && DrawsOf(more) == DrawsOf(parts) + [d];
  }

  lemma ComposedStray(sent: seq<Frame>, ds: seq<LegalDraw>, f: Frame)
    requires Composed(sent, ds) && FrameType(f) >= 3
    ensures Composed(sent + [f], ds)
  {
    var parts :| FramesOf(parts) == sent && DrawsOf(parts) == ds;
    StrayPart(parts, f);
  }

  lemma ComposedFront(before: seq<Frame>, ds: seq<LegalDraw>, d: LegalDraw, k: nat)
    requires Composed(before, ds) && k <= |Faulty(d)|
    ensures Composed(before + Faulty(d)[..k], ds + [d])
  {
    var parts :| FramesOf(parts) == before && DrawsOf(parts) == ds;
    FrontPart(parts, d, k, before + Faulty(d)[..k]);
  }

  lemma ComposedLast(before: seq<Frame>, ds: seq<LegalDraw>, k: nat)
    requires ds != [] && k <= |Faulty(ds[|ds| - 1])| && Composed(before, ds[..|ds| - 1])
    ensures Composed(before + Faulty(ds[|ds| - 1])[..k], ds)
  {
    ComposedFront(before, ds[..|ds| - 1], ds[|ds| - 1], k);
    LastApart(ds);
  }

  // ----- What a client reassembles -------------------------------------------

  /** A response cut off anywhere delivers its outcome or nothing. */
  lemma CutOffResponse(s: State, d: LegalDraw, k: nat)
    requires k <= |Faulty(d)|
    ensures Delivered(s, Faulty(d)[..k]) == [] || Delivered(s, Faulty(d)[..k]) == Outcome(d.payload, d.fault)
  {
    var frames := Faulty(d);
    assert frames == frames[..k] + frames[k..];
    StreamConcat(s, frames[..k], frames[k..]);
    FaultOutcome(s, d.payload, d.fault);
  }

  lemma StrayIsSilent(s: State, f: Frame)
    requires FrameType(f) >= 3
    ensures Delivered(s, [f]) == []
  {
    StreamOne(s, f);
  }

  /** What one part can deliver, if anything. */
  function Share(p: LegalPart): seq<seq<byte>> {
    match p
    case Stray(_) => []
    case Front(d, _) => Outcome(d.payload, d.fault)
  }

  function Shares(parts: seq<LegalPart>): seq<seq<byte>> {
    if parts == [] then [] else Shares(parts[..|parts| - 1]) + Share(parts[|parts| - 1])
  }

  lemma {:induction false} SharesAreOutcomes(parts: seq<LegalPart>)
    ensures Shares(parts) == Outcomes(DrawsOf(parts))
  {
    if parts != [] {
      var init, last := parts[..|parts| - 1], parts[|parts| - 1];
      SharesAreOutcomes(init);
      match last {
        case Stray(_) => assert DrawsOf(init) + [] == DrawsOf(init);
        case Front(d, _) => assert (DrawsOf(init) + [d])[..|DrawsOf(init)|] == DrawsOf(init);
      }
    }
  }

  lemma PartDelivers(s: State, p: LegalPart)
    ensures Delivered(s, p.Frames()) == [] || Delivered(s, p.Frames()) == Share(p)
  {
    match p
    case Stray(f) => StrayIsSilent(s, f);
    case Front(d, k) => CutOffResponse(s, d, k);
  }

  lemma {:induction false} PartsDeliver(client: State, parts: seq<LegalPart>)
    ensures Subsequence(Delivered(client, FramesOf(parts)), Shares(parts))
  {
    if parts != [] {
      var init, last := parts[..|parts| - 1], parts[|parts| - 1];
      var t := After(client, FramesOf(init));
      PartsDeliver(client, init);
      PartDelivers(t, last);
      StreamConcat(client, FramesOf(init), last.Frames());
      SubsequenceAppend(Delivered(client, FramesOf(init)), Shares(init), Delivered(t, last.Frames()), Share(last));
    }
  }

  /** A client in any state reassembles an in-order subsequence of the outcomes. */
  lemma ComposedDelivers(client: State, sent: seq<Frame>, ds: seq<LegalDraw>)
    requires Composed(sent, ds)
    ensures Subsequence(Delivered(client, sent), Outcomes(ds))
  {
    var parts :| FramesOf(parts) == sent && DrawsOf(parts) == ds;
    PartsDeliver(client, parts);
    SharesAreOutcomes(parts);
  }

  // ----- Loss on the way -----------------------------------------------------

  predicate StartFrame(f: Frame) { FrameType(f) <= 1 }

  /** `heard` is what is left of `sent` when frames other than start frames are lost. */
  ghost predicate Thinned(heard: seq<Frame>, sent: seq<Frame>) {
    if sent == [] then heard == []
    else
      var init, last := sent[..|sent| - 1], sent[|sent| - 1];
      || (!StartFrame(last) && Thinned(heard, init))
      || (heard != [] && heard[|heard| - 1] == last && Thinned(heard[..|heard| - 1], init))
  }

  /** What is left of two streams is what is left of each. */
  lemma {:induction false} ThinnedSplit(heard: seq<Frame>, a: seq<Frame>, b: seq<Frame>)
    returns (x: seq<Frame>, y: seq<Frame>)
    requires Thinned(heard, a + b)
    ensures heard == x + y && Thinned(x, a) && Thinned(y, b)
    decreases |b|
  {
    if b == [] {
      assert a + b == a;
      x, y := heard, [];
    } else {
      var b', last := b[..|b| - 1], b[|b| - 1];
      assert (a + b)[..|a + b| - 1] == a + b';
      if !StartFrame(last) && Thinned(heard, a + b') {
        x, y := ThinnedSplit(heard, a, b');
      } else {
        var init := heard[..|heard| - 1];
        x, y := ThinnedSplit(init, a, b');
        ThinnedKeeps(y, b', last);
        assert heard == init + [last];
        y := y + [last];
      }
    }
  }

  lemma ThinnedKeeps(y: seq<Frame>, b: seq<Frame>, last: Frame)
    requires Thinned(y, b)
    ensures Thinned(y + [last], b + [last])
  {
    assert (y + [last])[..|y|] == y && (b + [last])[..|b|] == b;
  }

  /** Behind a start frame, any subsequence may be left. */
  lemma {:induction false} ThinnedBehindStart(heard: seq<Frame>, start: Frame, cs: seq<Frame>)
    requires StartFrame(start) && Thinned(heard, [start] + cs)
    ensures heard != [] && heard[0] == start && Subsequence(heard[1..], cs)
    decreases |cs|
  {
    var sent := [start] + cs;
    if cs == [] {
      assert sent[..0] == [];
    } else {
      var c', last := cs[..|cs| - 1], cs[|cs| - 1];
      assert sent[..|sent| - 1] == [start] + c';
      if !StartFrame(last) && Thinned(heard, [start] + c') {
        ThinnedBehindStart(heard, start, c');
      } else {
        var init := heard[..|heard| - 1];
        ThinnedBehindStart(init, start, c');
        assert heard[1..][..|heard[1..]| - 1] == init[1..];
      }
    }
  }

  /** The front of a fault-free response, thinned, delivers the response or nothing. */
  lemma ThinnedFront(s: State, p: seq<byte>, k: nat, heard: seq<Frame>)
    requires 1 <= |p| <= MAX_PAYLOAD && k <= |Frames(p)| && Thinned(heard, Frames(p)[..k])
    ensures Delivered(s, heard) == [] || Delivered(s, heard) == [p]
  {
    if k > 0 {
      var start, rest := Frames(p)[0], Frames(p)[1..k];
      FirstApart(Frames(p), k);
      FirstIsStart(p);
      ThinnedBehindStart(heard, start, rest);
      FrontOf(s, p, heard, rest);
    }
  }

  lemma FirstApart<T>(a: seq<T>, k: nat)
    requires 1 <= k <= |a|
    ensures a[..k] == [a[0]] + a[1..k] && a[1..k] <= a[1..]
  {
  }

  lemma FrontOf(s: State, p: seq<byte>, heard: seq<Frame>, rest: seq<Frame>)
    requires 1 <= |p| <= MAX_PAYLOAD && heard != [] && heard[0] == Frames(p)[0]
    requires rest <= Frames(p)[1..] && Subsequence(heard[1..], rest)
    ensures Delivered(s, heard) == [] || Delivered(s, heard) == [p]
  {
    if |p| <= 7 {
      OnlyFrame(s, p, heard, rest);
    } else {
      assert heard == [FirstFrame(p)] + heard[1..];
      ThinnedMulti(s, p, rest, heard[1..]);
    }
  }

  lemma OnlyFrame(s: State, p: seq<byte>, heard: seq<Frame>, rest: seq<Frame>)
    requires 1 <= |p| <= 7 && rest == [] && heard != [] && heard[0] == Frames(p)[0]
    requires Subsequence(heard[1..], rest)
    ensures Delivered(s, heard) == [p]
  {
    assert heard == Frames(p);
    RoundTrip(s, p);
  }

  lemma FirstIsStart(p: seq<byte>)
    requires 1 <= |p| <= MAX_PAYLOAD
    ensures StartFrame(Frames(p)[0])
  {
  }

  lemma ThinnedMulti(s: State, p: seq<byte>, rest: seq<Frame>, cs: seq<Frame>)
    requires 8 <= |p| <= MAX_PAYLOAD && rest <= ConsecutiveFrames(p) && Subsequence(cs, rest)
    ensures Delivered(s, [FirstFrame(p)] + cs) == [] || Delivered(s, [FirstFrame(p)] + cs) == [p]
  {
    var all := ConsecutiveFrames(p);
    SubsequenceGrow(cs, rest, all[|rest|..]);
    assert rest + all[|rest|..] == all;
    if cs == all {
      RoundTrip(s, p);
    } else {
      LossIsDetected(s, p, cs);
    }
  }

  predicate Clean(ds: seq<LegalDraw>) {
    forall i | 0 <= i < |ds| :: ds[i].fault == NoFault
  }

  lemma CleanSplit(a: seq<LegalDraw>, b: seq<LegalDraw>)
    requires Clean(a + b)
    ensures Clean(a) && Clean(b)
  {
    assert forall i | 0 <= i < |a| :: (a + b)[i] == a[i];
    assert forall i | 0 <= i < |b| :: (a + b)[|a| + i] == b[i];
  }

  lemma ThinnedOne(heard: seq<Frame>, f: Frame)
    requires Thinned(heard, [f])
    ensures heard == [] || heard == [f]
  {
    assert [f][..0] == [];
    if heard != [] {
      assert heard == heard[..|heard| - 1] + [f];
    }
  }

  lemma ThinnedPart(s: State, p: LegalPart, heard: seq<Frame>)
    requires Clean(p.Draws()) && Thinned(heard, p.Frames())
    ensures Delivered(s, heard) == [] || Delivered(s, heard) == Share(p)
  {
    match p
    case Stray(f) =>
      ThinnedOne(heard, f);
      StrayIsSilent(s, f);
    case Front(d, k) =>
      assert p.Draws()[0] == d;
      ThinnedFront(s, d.payload, k, heard);
  }

  lemma {:induction false} ThinnedParts(client: State, parts: seq<LegalPart>, heard: seq<Frame>)
    requires Clean(DrawsOf(parts)) && Thinned(heard, FramesOf(parts))
    ensures Subsequence(Delivered(client, heard), Shares(parts))
    decreases |parts|
  {
    if parts != [] {
      var init, last := parts[..|parts| - 1], parts[|parts| - 1];
      var x, y := ThinnedSplit(heard, FramesOf(init), last.Frames());
      CleanSplit(DrawsOf(init), last.Draws());
      ThinnedParts(client, init, x);
      ThinnedPart(After(client, x), last, y);
      StreamConcat(client, x, y);
      SubsequenceAppend(Delivered(client, x), Shares(init), Delivered(After(client, x), y), Share(last));
    }
  }

  /** Without faults, and whatever frames other than start frames are lost on the way, a
      client in any state reassembles an in-order subsequence of the responses. */
  lemma ThinnedDelivers(client: State, sent: seq<Frame>, ds: seq<LegalDraw>, heard: seq<Frame>)
    requires Composed(sent, ds) && Thinned(heard, sent)
    requires Clean(ds)
    ensures Subsequence(Delivered(client, heard), Outcomes(ds))
  {
    var parts :| FramesOf(parts) == sent && DrawsOf(parts) == ds;
    ThinnedParts(client, parts, heard);
    SharesAreOutcomes(parts);
  }
}

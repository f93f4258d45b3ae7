/** What a receiver gets out of a response that went through the fault injector. */
module FaultOutcomes {
  import opened Bytes
  import opened IsoTp
  import opened IsoTpStreams
  import opened IsoTpTheorems
  import opened IsoTpRobustness
  import opened IsoTpLoss
  import opened Faults

  // ----- The outcome, on payloads --------------------------------------------

  /** The data bytes that the last frame of `p` carries. */
  function LastCount(p: seq<byte>): nat
    requires 1 <= |p|
  {
    if |p| <= 7 then |p| else 7 - (7 * CfCount(|p| - 6) - (|p| - 6))
  }

  /** How many payload bytes SHORT_PAYLOAD overwrites. */
  function Overwritten(p: seq<byte>, n: nat): nat
    requires 1 <= |p|
  {
    Max(0, n - (7 - LastCount(p)))
  }

  /** The payload with `delta` added to its bytes 1-2; bytes a short payload does
      not have count as padding and are cut off again. */
  function DidShifted(p: seq<byte>, delta: nat): seq<byte> {
    var q := p + [PADDING, PADDING];
    if |p| == 0 then p
    else
      var did := (q[1] * 256 + q[2] + delta) % 0x10000;
      q[1 := did / 256][2 := did % 256][..|p|]
  }

  /** The payloads delivered for the response `p` under a fault: none or one. */
  function Outcome(p: seq<byte>, fault: Fault): (r: seq<seq<byte>>)
    requires 1 <= |p| <= MAX_PAYLOAD
    ensures |r| <= 1
  {
    if |p| <= 7 && NeedsCf(fault) then [p]
    else
      match fault
      case NoFault => [p]
      case WrongDid(delta) => [DidShifted(p, delta)]
      case WrongService => [p[0 := 0]]
      case ShortPayload(n) =>
        var k := Min(Overwritten(p, n), |p|);
        [p[..|p| - k] + Repeat(PADDING, k)]
      case WrongPadding =>
        if |p| >= 8 && |p| % 256 == PADDING then [RepadAll(p)[..|p| - 34]] else [RepadAll(p)]
      case DropRandomCf(_) | DropLastCf | WrongSeq(_) | TruncatedMf => []
      case DuplicateCf(i) => if i == CfCount(|p| - 6) then [p] else []
      case WrongLen =>
        if |p| == MAX_PAYLOAD then [p]
        else if (|p| - 6) % 7 != 0 then [p + [PADDING]] else []
  }

  // ----- One lemma per fault, for responses of at least 8 bytes --------------

  lemma DroppedDeliversNothing(s: State, p: seq<byte>, fault: Fault)
    requires 8 <= |p| <= MAX_PAYLOAD && Possible(fault, |Frames(p)|)
    requires fault.DropRandomCf? || fault.DropLastCf? || fault.TruncatedMf?
    ensures Delivered(s, Apply(Frames(p), fault)) == []
  {
    var r := Apply(Frames(p), fault);
    DroppedFrames(p, fault, r);
    DataOfFrames(p);
    TooFewFrames(s, r[0], r[1..]);
  }

  lemma DroppedFrames(p: seq<byte>, fault: Fault, r: seq<Frame>)
    requires 8 <= |p| <= MAX_PAYLOAD && Possible(fault, |Frames(p)|) && r == Apply(Frames(p), fault)
    requires fault.DropRandomCf? || fault.DropLastCf? || fault.TruncatedMf?
    ensures r == [FirstFrame(p)] + r[1..] && AllCf(r[1..]) && |r[1..]| < CfCount(|p| - 6)
  {
    CfsAreNumbered(p);
    match fault
    case DropRandomCf(i) => WithoutOne(FirstFrame(p), ConsecutiveFrames(p), i, r);
    case DropLastCf => WithoutOne(FirstFrame(p), ConsecutiveFrames(p), CfCount(|p| - 6), r);
    case TruncatedMf => assert r == [FirstFrame(p)];
  }

  lemma WithoutOne(ff: Frame, cs: seq<Frame>, i: nat, r: seq<Frame>)
    requires AllCf(cs) && 1 <= i <= |cs| && r == ([ff] + cs)[..i] + ([ff] + cs)[i + 1..]
    ensures r == [ff] + r[1..] && AllCf(r[1..]) && |r[1..]| < |cs|
  {
    assert r == [ff] + (cs[..i - 1] + cs[i..]);
    assert r[1..] == cs[..i - 1] + cs[i..];
  }

  lemma MisnumberedDeliversNothing(s: State, ff: Frame, cs: seq<Frame>, i: nat)
    requires IsFirst(ff) && AllCf(cs) && i < |cs| && i < Needed(ff)
    requires LowNibble(cs[i]) != (1 + i) % 16
    ensures Delivered(s, [ff] + cs) == []
  {
    InOrderAt(cs, 1);
    MultiExact(s, ff, cs);
  }

  lemma BumpedNumber(f: Frame)
    ensures IsCf(BumpSeq(f)) && LowNibble(BumpSeq(f)) != LowNibble(f)
  {
  }

  lemma NextNumberDiffers(i: nat)
    ensures (1 + i) % 16 != i % 16
  {
  }

  lemma WrongSeqDeliversNothing(s: State, p: seq<byte>, i: nat)
    requires 8 <= |p| <= MAX_PAYLOAD && 1 <= i < |Frames(p)|
    ensures Delivered(s, Apply(Frames(p), WrongSeq(i))) == []
  {
    var all := ConsecutiveFrames(p);
    AppliedIs(Frames(p), i);
    assert Apply(Frames(p), WrongSeq(i)) == [FirstFrame(p)] + all[i - 1 := BumpSeq(all[i - 1])];
    BumpedFrames(s, p, i - 1);
  }

  lemma BumpedFrames(s: State, p: seq<byte>, i: nat)
    requires 8 <= |p| <= MAX_PAYLOAD && i < CfCount(|p| - 6)
    ensures var all := ConsecutiveFrames(p);
      Delivered(s, [FirstFrame(p)] + all[i := BumpSeq(all[i])]) == []
  {
    var all := ConsecutiveFrames(p);
    CfsAreNumbered(p);
    DataOfFrames(p);
    BumpedNumber(all[i]);
    NumberAt(p, i);
    MisnumberedDeliversNothing(s, FirstFrame(p), all[i := BumpSeq(all[i])], i);
  }

  lemma DuplicateOutcome(s: State, p: seq<byte>, i: nat)
    requires 8 <= |p| <= MAX_PAYLOAD && 1 <= i < |Frames(p)|
    ensures Delivered(s, Apply(Frames(p), DuplicateCf(i))) == Outcome(p, DuplicateCf(i))
  {
    AppliedDuplicate(p, i);
    DuplicatedAreCfs(p, i);
    DuplicatedFrames(s, p, i, Apply(Frames(p), DuplicateCf(i)));
  }

  function Duplicated(cs: seq<Frame>, i: nat): seq<Frame>
    requires 1 <= i <= |cs|
  {
    cs[..i] + [cs[i - 1]] + cs[i..]
  }

  lemma AppliedDuplicate(p: seq<byte>, i: nat)
    requires 8 <= |p| <= MAX_PAYLOAD && 1 <= i < |Frames(p)|
    ensures Apply(Frames(p), DuplicateCf(i)) == [FirstFrame(p)] + Duplicated(ConsecutiveFrames(p), i)
  {
    AppliedIs(Frames(p), i);
    DuplicateBehind(FirstFrame(p), ConsecutiveFrames(p), i);
  }

  /** The two faults that change the middle of a list. */
  lemma AppliedIs(fs: seq<Frame>, i: nat)
    requires 1 <= i < |fs|
    ensures Apply(fs, DuplicateCf(i)) == fs[..i + 1] + [fs[i]] + fs[i + 1..]
    ensures Apply(fs, WrongSeq(i)) == fs[i := BumpSeq(fs[i])]
  {
  }

  lemma DuplicateBehind<T>(x: T, a: seq<T>, i: nat)
    requires 1 <= i <= |a|
    ensures var b := [x] + a;
      b[..i + 1] + [b[i]] + b[i + 1..] == [x] + (a[..i] + [a[i - 1]] + a[i..])
  {
  }

  lemma DuplicatedAreCfs(p: seq<byte>, i: nat)
    requires 8 <= |p| && 1 <= i <= CfCount(|p| - 6)
    ensures AllCf(Duplicated(ConsecutiveFrames(p), i))
  {
    CfsAreNumbered(p);
  }

  lemma DuplicatedFrames(s: State, p: seq<byte>, i: nat, fs: seq<Frame>)
    requires 8 <= |p| <= MAX_PAYLOAD && 1 <= i <= CfCount(|p| - 6)
    requires fs == [FirstFrame(p)] + Duplicated(ConsecutiveFrames(p), i)
    ensures Delivered(s, fs) == if i == CfCount(|p| - 6) then [p] else []
  {
    var all := ConsecutiveFrames(p);
    var cs := Duplicated(all, i);
    DuplicatedAreCfs(p, i);
    DataOfFrames(p);
    if i == CfCount(|p| - 6) {
      assert cs[..|all|] == all;
      HomeInOrder(p, cs);
      HomeData(p, cs);
      MultiExact(s, FirstFrame(p), cs);
    } else {
      NumberAt(p, i - 1);
      NextNumberDiffers(i);
      assert cs[i] == all[i - 1];
      MisnumberedDeliversNothing(s, FirstFrame(p), cs, i);
    }
  }

  lemma RelabelledFirst(ff: Frame, length: nat)
    requires IsFirst(ff) && 8 <= length <= MAX_PAYLOAD
    ensures IsFirst(WithLength(ff, length)) && AnnouncedLength(WithLength(ff, length)) == length
    ensures WithLength(ff, length)[2..] == ff[2..]
  {
  }

  /** The frames of `p` behind a First Frame that announces another length. */
  lemma RelabelledOutcome(s: State, p: seq<byte>, ff: Frame)
    requires 8 <= |p| <= MAX_PAYLOAD && IsFirst(ff) && ff[2..] == FirstFrame(p)[2..]
    ensures var k, n := AnnouncedLength(ff), 6 + 7 * CfCount(|p| - 6);
      Delivered(s, [ff] + ConsecutiveFrames(p))
        == if k <= n then [(p + Repeat(PADDING, n - |p|))[..k]] else []
  {
    var cs, k := ConsecutiveFrames(p), AnnouncedLength(ff);
    CfsAreNumbered(p);
    DataOfFrames(p);
    assert ff[2..8] == FirstFrame(p)[2..8];
    assert k <= 6 + 7 * |cs| <==> |cs| >= Needed(ff);
    MultiExact(s, ff, cs);
  }

  lemma WrongLenOutcome(s: State, p: seq<byte>)
    requires 8 <= |p| <= MAX_PAYLOAD
    ensures Delivered(s, Apply(Frames(p), WrongLen)) == Outcome(p, WrongLen)
  {
    DataOfFrames(p);
    var length := Min(|p| + 1, MAX_PAYLOAD);
    RelabelledFirst(FirstFrame(p), length);
    RelabelledOutcome(s, p, WithLength(FirstFrame(p), length));
    AppliedLength(p);
    InflatedBytes(p);
  }

  lemma AppliedLength(p: seq<byte>)
    requires 8 <= |p| <= MAX_PAYLOAD
    ensures Apply(Frames(p), WrongLen)
      == [WithLength(FirstFrame(p), Min(|p| + 1, MAX_PAYLOAD))] + ConsecutiveFrames(p)
  {
    DataOfFrames(p);
  }

  lemma InflatedBytes(p: seq<byte>)
    requires 8 <= |p| <= MAX_PAYLOAD
    ensures var k, n := Min(|p| + 1, MAX_PAYLOAD), 6 + 7 * CfCount(|p| - 6);
      (if k <= n then [(p + Repeat(PADDING, n - |p|))[..k]] else []) == Outcome(p, WrongLen)
  {
    var k, n := Min(|p| + 1, MAX_PAYLOAD), 6 + 7 * CfCount(|p| - 6);
    if k <= n {
      assert (p + Repeat(PADDING, n - |p|))[..k] == if k == |p| then p else p + [PADDING];
    }
  }

  /** Faults that edit data bytes of frame 0 only. */
  lemma FirstEdited(s: State, p: seq<byte>, ff: Frame, q: seq<byte>)
    requires 8 <= |p| <= MAX_PAYLOAD && |q| == |p| && q[6..] == p[6..]
    requires ff == FirstFrame(p)[..2] + q[..6]
    ensures Delivered(s, [ff] + ConsecutiveFrames(p)) == [q]
  {
    var cs := ConsecutiveFrames(p);
    CfsAreNumbered(p);
    DataOfFrames(p);
    assert AnnouncedLength(ff) == |p| && IsFirst(ff);
    forall j: nat | j < |q|
      ensures q[j] == ByteAt(ff, cs, j)
    {
      SourceByte(p, j);
      if j >= 6 {
        assert q[j] == q[6..][j - 6] == p[6..][j - 6];
      }
    }
    DeliversBytes(s, ff, cs, q);
  }

  lemma HeaderFaultMulti(s: State, p: seq<byte>, fault: Fault)
    requires 8 <= |p| <= MAX_PAYLOAD && Possible(fault, |Frames(p)|)
    requires fault.WrongDid? || fault.WrongService?
    ensures Delivered(s, Apply(Frames(p), fault)) == Outcome(p, fault)
  {
    var r, q := Apply(Frames(p), fault), Outcome(p, fault)[0];
    assert r == [r[0]] + ConsecutiveFrames(p);
    assert FrameType(FirstFrame(p)) == 1;
    assert r[0] == FirstFrame(p)[..2] + q[..6];
    FirstEdited(s, p, r[0], q);
  }

  lemma ShortPayloadMulti(s: State, p: seq<byte>, n: nat)
    requires 8 <= |p| <= MAX_PAYLOAD && 1 <= n <= 3
    ensures Delivered(s, Apply(Frames(p), ShortPayload(n))) == Outcome(p, ShortPayload(n))
  {
    var ff, all := FirstFrame(p), ConsecutiveFrames(p);
    var m := |all| - 1;
    var cs := all[m := BlankTail(all[m], n)];
    CfsAreNumbered(p);
    AppliedShort(p, n);
    InOrderByNumbers(all, cs, 1);
    BlankedFrames(s, p, n, cs);
  }

  lemma AppliedShort(p: seq<byte>, n: nat)
    requires 8 <= |p| <= MAX_PAYLOAD && 1 <= n <= 3
    ensures var all := ConsecutiveFrames(p);
      var m := |all| - 1;
      && Apply(Frames(p), ShortPayload(n)) == [FirstFrame(p)] + all[m := BlankTail(all[m], n)]
      && BlankTail(all[m], n)[0] == all[m][0]
  {
  }

  lemma BlankedFrames(s: State, p: seq<byte>, n: nat, cs: seq<Frame>)
    requires 8 <= |p| <= MAX_PAYLOAD && 1 <= n <= 3
    requires var all := ConsecutiveFrames(p);
      var m := |all| - 1;
      cs == all[m := BlankTail(all[m], n)] && AllCf(cs) && InOrder(cs, 1) == |all|
    ensures Delivered(s, [FirstFrame(p)] + cs) == Outcome(p, ShortPayload(n))
  {
    var q := Outcome(p, ShortPayload(n))[0];
    DataOfFrames(p);
    forall j: nat | j < |q|
      ensures q[j] == ByteAt(FirstFrame(p), cs, j)
    {
      BlankedByte(p, n, j);
    }
    DeliversBytes(s, FirstFrame(p), cs, q);
  }

  lemma BlankedByte(p: seq<byte>, n: nat, j: nat)
    requires 8 <= |p| <= MAX_PAYLOAD && 1 <= n <= 3 && j < |p|
    ensures var all := ConsecutiveFrames(p);
      var m := |all| - 1;
      ByteAt(FirstFrame(p), all[m := BlankTail(all[m], n)], j) == Outcome(p, ShortPayload(n))[0][j]
  {
    var k := Overwritten(p, n);
    SourceByte(p, j);
    if j >= |p| - k {
      assert (j - 6) / 7 == CfCount(|p| - 6) - 1 && 1 + (j - 6) % 7 >= 8 - n;
    }
  }

  lemma RepaddedHeader(p: seq<byte>)
    requires 8 <= |p| <= MAX_PAYLOAD
    ensures var ff := RepadAll(FirstFrame(p));
      IsFirst(ff) && AnnouncedLength(ff) == if |p| % 256 == PADDING then |p| - 34 else |p|
  {
  }

  lemma RepaddedByte(p: seq<byte>, j: nat)
    requires 8 <= |p| <= MAX_PAYLOAD && j < |Outcome(p, WrongPadding)[0]|
    ensures |Outcome(p, WrongPadding)[0]| <= |p|
    ensures Outcome(p, WrongPadding)[0][j] == ByteAt(RepadAll(FirstFrame(p)), RepadFrames(ConsecutiveFrames(p)), j)
  {
    SourceByte(p, j);
  }

  lemma RepaddedInOrder(p: seq<byte>)
    requires 8 <= |p|
    ensures var cs := RepadFrames(ConsecutiveFrames(p)); AllCf(cs) && InOrder(cs, 1) == CfCount(|p| - 6)
  {
    CfsAreNumbered(p);
    InOrderByNumbers(ConsecutiveFrames(p), RepadFrames(ConsecutiveFrames(p)), 1);
  }

  lemma AppliedRepad(p: seq<byte>)
    requires 8 <= |p| <= MAX_PAYLOAD
    ensures Apply(Frames(p), WrongPadding) == [RepadAll(FirstFrame(p))] + RepadFrames(ConsecutiveFrames(p))
  {
  }

  lemma WrongPaddingMulti(s: State, p: seq<byte>)
    requires 8 <= |p| <= MAX_PAYLOAD
    ensures Delivered(s, Apply(Frames(p), WrongPadding)) == Outcome(p, WrongPadding)
  {
    var ff, cs := RepadAll(FirstFrame(p)), RepadFrames(ConsecutiveFrames(p));
    var q := Outcome(p, WrongPadding)[0];
    AppliedRepad(p);
    RepaddedInOrder(p);
    RepaddedHeader(p);
    forall j: nat | j < |q|
      ensures q[j] == ByteAt(ff, cs, j)
    {
      RepaddedByte(p, j);
    }
    DeliversBytes(s, ff, cs, q);
  }

  // ----- All faults, all lengths ---------------------------------------------

  lemma SingleOutcome(s: State, p: seq<byte>, fault: Fault)
    requires 1 <= |p| <= 7 && Possible(fault, 1)
    ensures Delivered(s, Apply(Frames(p), fault)) == Outcome(p, fault)
  {
    SingleBytes(p, fault);
    var f := Apply(Frames(p), fault)[0];
    assert Apply(Frames(p), fault) == [f];
    SingleExact(s, f);
  }

  lemma SingleBytes(p: seq<byte>, fault: Fault)
    requires 1 <= |p| <= 7 && Possible(fault, 1)
    ensures var r := Apply(Frames(p), fault);
      && |r| == 1 && IsSingle(r[0]) && LowNibble(r[0]) == |p|
      && Outcome(p, fault) == [r[0][1..1 + |p|]]
  {
    if NeedsCf(fault) || fault == NoFault {
      assert SingleFrame(p)[1..1 + |p|] == p;
    } else {
      SingleEdited(p, fault);
    }
  }

  lemma SingleEdited(p: seq<byte>, fault: Fault)
    requires 1 <= |p| <= 7 && Possible(fault, 1) && !NeedsCf(fault) && fault != NoFault
    ensures var r := Apply(Frames(p), fault);
      && |r| == 1 && IsSingle(r[0]) && LowNibble(r[0]) == |p|
      && Outcome(p, fault) == [r[0][1..1 + |p|]]
  {
    match fault
    case WrongDid(delta) => SingleDid(p, delta);
    case WrongService => SingleService(p);
    case ShortPayload(n) => SingleShort(p, n);
    case WrongPadding => SinglePadding(p);
  }

  lemma SingleDid(p: seq<byte>, delta: nat)
    requires 1 <= |p| <= 7
    ensures var f := ShiftDid(SingleFrame(p), 2, delta);
      f[0] == |p| && f[1..1 + |p|] == DidShifted(p, delta)
  {
    var f, q := SingleFrame(p), p + [PADDING, PADDING];
    assert f[2] == q[1] && f[3] == q[2];
    assert f[1..1 + |p|] == p;
  }

  lemma SingleService(p: seq<byte>)
    requires 1 <= |p| <= 7
    ensures var f := SingleFrame(p)[1 := 0]; f[0] == |p| && f[1..1 + |p|] == p[0 := 0]
  {
  }

  lemma SingleShort(p: seq<byte>, n: nat)
    requires 1 <= |p| <= 7 && 1 <= n <= 3
    ensures var f := BlankTail(SingleFrame(p), n);
      f[0] == |p| && [f[1..1 + |p|]] == Outcome(p, ShortPayload(n))
  {
    var f, q := BlankTail(SingleFrame(p), n), Outcome(p, ShortPayload(n))[0];
    forall j | 0 <= j < |p|
      ensures f[1 + j] == q[j]
    {
    }
    assert f[1..1 + |p|] == q;
  }

  lemma SinglePadding(p: seq<byte>)
    requires 1 <= |p| <= 7
    ensures var f := RepadAll(SingleFrame(p)); f[0] == |p| && f[1..1 + |p|] == RepadAll(p)
  {
  }

  /** WRONG_DID and WRONG_SERVICE. */
  lemma HeaderFaultOutcome(s: State, p: seq<byte>, fault: Fault)
    requires 1 <= |p| <= MAX_PAYLOAD && Possible(fault, |Frames(p)|) && (fault.WrongDid? || fault.WrongService?)
    ensures Delivered(s, Apply(Frames(p), fault)) == Outcome(p, fault)
  {
    if |p| <= 7 {
      SingleOutcome(s, p, fault);
    } else {
      HeaderFaultMulti(s, p, fault);
    }
  }

  lemma ShortPayloadOutcome(s: State, p: seq<byte>, n: nat)
    requires 1 <= |p| <= MAX_PAYLOAD && 1 <= n <= 3
    ensures Delivered(s, Apply(Frames(p), ShortPayload(n))) == Outcome(p, ShortPayload(n))
  {
    if |p| <= 7 {
      SingleOutcome(s, p, ShortPayload(n));
    } else {
      ShortPayloadMulti(s, p, n);
    }
  }

  lemma WrongPaddingOutcome(s: State, p: seq<byte>)
    requires 1 <= |p| <= MAX_PAYLOAD
    ensures Delivered(s, Apply(Frames(p), WrongPadding)) == Outcome(p, WrongPadding)
  {
    if |p| <= 7 {
      SingleOutcome(s, p, WrongPadding);
    } else {
      WrongPaddingMulti(s, p);
    }
  }

  /** The exact outcome of every fault, every random draw, every response and
      every state of the receiver. */
  lemma FaultOutcome(s: State, p: seq<byte>, fault: Fault)
    requires 1 <= |p| <= MAX_PAYLOAD && Possible(fault, |Frames(p)|)
    ensures Delivered(s, Apply(Frames(p), fault)) == Outcome(p, fault)
  {
    if |p| <= 7 {
      SingleOutcome(s, p, fault);
    } else {
      match fault
      case NoFault => RoundTrip(s, p);
      case WrongDid(_) | WrongService => HeaderFaultOutcome(s, p, fault);
      case ShortPayload(n) => ShortPayloadOutcome(s, p, n);
      case WrongPadding => WrongPaddingOutcome(s, p);
      case DropRandomCf(_) | DropLastCf | TruncatedMf => DroppedDeliversNothing(s, p, fault);
      case WrongSeq(i) => WrongSeqDeliversNothing(s, p, i);
      case DuplicateCf(i) => DuplicateOutcome(s, p, i);
      case WrongLen => WrongLenOutcome(s, p);
    }
  }

  // ----- Runs of responses ---------------------------------------------------

  /** A response and what the injector drew for it. */
  datatype Draw = Draw(payload: seq<byte>, fault: Fault) {
    predicate Legal() {
      1 <= |payload| <= MAX_PAYLOAD && Possible(fault, |Frames(payload)|)
    }
  }

  type LegalDraw = d: Draw | d.Legal() witness Draw([0], NoFault)

  function Faulty(d: LegalDraw): seq<Frame> {
    Apply(Frames(d.payload), d.fault)
  }

  function FaultyFrames(ds: seq<LegalDraw>): seq<Frame> {
    if ds == [] then [] else FaultyFrames(ds[..|ds| - 1]) + Faulty(ds[|ds| - 1])
  }

  function Outcomes(ds: seq<LegalDraw>): seq<seq<byte>> {
    if ds == [] then []
    else Outcomes(ds[..|ds| - 1]) + Outcome(ds[|ds| - 1].payload, ds[|ds| - 1].fault)
  }

  /** Damage never crosses from one response into another: a whole run delivers
      exactly the outcomes of its responses, one after the other. */
  lemma {:induction false} FaultsAreContained(s: State, ds: seq<LegalDraw>)
    ensures Delivered(s, FaultyFrames(ds)) == Outcomes(ds)
  {
    if ds != [] {
      var init, last := ds[..|ds| - 1], ds[|ds| - 1];
      FaultsAreContained(s, init);
      StreamConcat(s, FaultyFrames(init), Faulty(last));
      FaultOutcome(After(s, FaultyFrames(init)), last.payload, last.fault);
    }
  }

  // ----- What the outcomes mean ----------------------------------------------

  /** WRONG_DID changes the DID of a response, always, and nothing else. */
  lemma WrongDidChangesOnlyDid(p: seq<byte>, delta: nat)
    requires 3 <= |p| && 1 <= delta <= 254
    ensures var q := DidShifted(p, delta);
      && |q| == |p| && q[0] == p[0] && q[3..] == p[3..]
      && (q[1], q[2]) != (p[1], p[2])
  {
  }

  /** SHORT_PAYLOAD does touch data: it is harmless exactly when every byte it
      overwrites was 0xCC already. */
  lemma ShortPayloadHarmlessIff(p: seq<byte>, n: nat)
    requires 1 <= |p| <= MAX_PAYLOAD && 1 <= n <= 3
    ensures Outcome(p, ShortPayload(n)) == [p]
      <==> forall i | |p| - Overwritten(p, n) <= i < |p| :: p[i] == PADDING
  {
    var k := Overwritten(p, n);
    var q := Outcome(p, ShortPayload(n))[0];
    if forall i | |p| - k <= i < |p| :: p[i] == PADDING {
      assert q == p;
    } else {
      var i :| |p| - k <= i < |p| && p[i] != PADDING;
      assert q[i] == PADDING;
    }
  }

  /** WRONG_PADDING touches data and length: it is harmless exactly when no data
      byte and no length byte is 0xCC. */
  lemma WrongPaddingHarmlessIff(p: seq<byte>)
    requires 1 <= |p| <= MAX_PAYLOAD
    ensures Outcome(p, WrongPadding) == [p]
      <==> PADDING !in p && !(|p| >= 8 && |p| % 256 == PADDING)
  {
    if PADDING in p {
      var i :| 0 <= i < |p| && p[i] == PADDING;
      assert RepadAll(p)[i] != p[i];
    } else {
      assert RepadAll(p) == p;
    }
  }
}

/** The second reassembly of simulator/device.py, on the way to a DoIP client: it checks
    neither sequence numbers nor completeness, and exactly this comes of it. */
module DoipLenient {
  import opened Bytes
  import opened IsoTp
  import opened IsoTpStreams
  import opened IsoTpTheorems
  import opened IsoTpLoss
  import opened Faults
  import opened FaultOutcomes

  // ----- Lenient reassembly --------------------------------------------------

  /** What `handle_uds_payload` makes of the frames it collected: no sequence numbers,
      no completeness, Python slices that clamp. */
  function Lenient(fs: seq<Frame>): (p: seq<byte>)
    requires fs != []
    ensures |p| <= MAX_PAYLOAD
  {
    if |fs| == 1 then Slice(fs[0], 1, 1 + LowNibble(fs[0]))
    else Slice(Data(fs[0], fs[1..]), 0, AnnouncedLength(fs[0]))
  }

  /** The loop that extends the buffer frame by frame. */
  method Reassemble(faulted: seq<Frame>) returns (payload: seq<byte>)
    requires faulted != []
    ensures payload == Lenient(faulted)
  {
    var first := faulted[0];
    if |faulted| == 1 {
      return Slice(first, 1, 1 + first[0] % 16);
    }
    var total := AnnouncedLength(first);
    var buf := first[2..8];
    ghost var cs := faulted[1..];
    assert cs[0..] == cs;
    for i := 1 to |faulted|
      invariant buf + Body(cs[i - 1..]) == Data(first, cs)
    {
      BodyFront(buf, cs, i - 1);
      buf := buf + faulted[i][1..8];
    }
    return Slice(buf, 0, total);
  }

  lemma BodyFront(buf: seq<byte>, cs: seq<Frame>, i: nat)
    requires i < |cs|
    ensures (buf + cs[i][1..8]) + Body(cs[i + 1..]) == buf + Body(cs[i..])
  {
    DropOne(cs, i);
    assert cs[i][1..8] == cs[i][1..];
    Regroup(buf, cs[i][1..], Body(cs[i + 1..]));
  }

  lemma LenientSingle(f: Frame, p: seq<byte>)
    requires IsSingle(f) && Delivered(Idle, [f]) == [p]
    ensures Lenient([f]) == p
  {
    SingleExact(Idle, f);
  }

  lemma LenientMulti(ff: Frame, cs: seq<Frame>, p: seq<byte>)
    requires IsFirst(ff) && AllCf(cs) && Delivered(Idle, [ff] + cs) == [p]
    ensures cs != [] ==> Lenient([ff] + cs) == p
  {
    assert ([ff] + cs)[1..] == cs;
    MultiExact(Idle, ff, cs);
    assert p == Data(ff, cs)[..AnnouncedLength(ff)];
  }

  /** Wherever the strict assembler delivers, the lenient one returns the same bytes. */
  lemma LenientAgrees(head: Frame, cs: seq<Frame>, p: seq<byte>)
    requires AllCf(cs) && if cs == [] then IsSingle(head) else IsFirst(head)
    requires Delivered(Idle, [head] + cs) == [p]
    ensures Lenient([head] + cs) == p
  {
    if cs == [] {
      assert [head] + cs == [head];
      LenientSingle(head, p);
    } else {
      LenientMulti(head, cs, p);
    }
  }

  /** Without faults DoIP hands the response through unchanged. */
  lemma LenientIdentity(p: seq<byte>)
    requires 1 <= |p| <= MAX_PAYLOAD
    ensures Lenient(Frames(p)) == p
  {
    RoundTrip(Idle, p);
    if |p| <= 7 {
      LenientSingle(SingleFrame(p), p);
    } else {
      CfsAreNumbered(p);
      DataOfFrames(p);
      LenientMulti(FirstFrame(p), ConsecutiveFrames(p), p);
    }
  }

  // ----- What a DoIP client gets of a faulted response -------------------------

  /** A First Frame taken for a Single Frame: the low nibble of its length counts. */
  function LoneFirst(p: seq<byte>): seq<byte>
    requires 8 <= |p| <= MAX_PAYLOAD
  {
    ([|p| % 256] + p[..6])[..Min(|p| / 256, 7)]
  }

  /** The data of Consecutive Frame `i` (from 1) cut out. */
  function WithoutCf(p: seq<byte>, i: nat): seq<byte>
    requires 8 <= |p| && 1 <= i <= CfCount(|p| - 6)
  {
    Padded(p)[..6 + 7 * (i - 1)] + Padded(p)[6 + 7 * i..]
  }

  /** The data of Consecutive Frame `i` (from 1) twice. */
  function WithCfTwice(p: seq<byte>, i: nat): seq<byte>
    requires 8 <= |p| && 1 <= i <= CfCount(|p| - 6)
  {
    (Padded(p)[..6 + 7 * i] + Padded(p)[6 + 7 * (i - 1)..])[..|p|]
  }

  /** The payload that a DoIP client gets for the response `p` under a fault. */
  function LenientOutcome(p: seq<byte>, fault: Fault): seq<byte>
    requires 1 <= |p| <= MAX_PAYLOAD && Possible(fault, |Frames(p)|)
  {
    if |p| <= 7 && NeedsCf(fault) then p
    else
      match fault
      case NoFault | WrongDid(_) | WrongService | ShortPayload(_) | WrongPadding => Outcome(p, fault)[0]
      case WrongSeq(_) => p
      case WrongLen => if |p| == MAX_PAYLOAD || (|p| - 6) % 7 == 0 then p else p + [PADDING]
      case DropRandomCf(i) => if |p| <= 13 then [] else WithoutCf(p, i)
      case DropLastCf => if |p| <= 13 then [] else WithoutCf(p, CfCount(|p| - 6))
      case DuplicateCf(i) => WithCfTwice(p, i)
      case TruncatedMf => LoneFirst(p)
  }

  /** The exact result of every fault, every random draw and every response. */
  lemma LenientExact(p: seq<byte>, fault: Fault)
    requires 1 <= |p| <= MAX_PAYLOAD && Possible(fault, |Frames(p)|)
    ensures Lenient(Apply(Frames(p), fault)) == LenientOutcome(p, fault)
  {
    if |p| <= 7 {
      LenientOfSingle(p, fault);
    } else {
      match fault
      case NoFault | WrongDid(_) | WrongService | ShortPayload(_) | WrongPadding => StillDelivered(p, fault);
      case WrongSeq(i) => OverlookedSeq(p, i);
      case WrongLen =>
        if (|p| - 6) % 7 == 0 {
          OverlookedLength(p);
        } else {
          StillDelivered(p, fault);
        }
      case DropRandomCf(i) => LenientDropped(p, i, Apply(Frames(p), fault));
      case DropLastCf => LenientDropped(p, CfCount(|p| - 6), Apply(Frames(p), fault));
      case DuplicateCf(i) => LenientDuplicated(p, i);
      case TruncatedMf => LenientTruncated(p);
    }
  }

  lemma LenientOfSingle(p: seq<byte>, fault: Fault)
    requires 1 <= |p| <= 7 && Possible(fault, 1)
    ensures Lenient(Apply(Frames(p), fault)) == LenientOutcome(p, fault)
  {
    SingleBytes(p, fault);
  }

  /** Faults under which the strict assembler still delivers. */
  lemma StillDelivered(p: seq<byte>, fault: Fault)
    requires 8 <= |p| <= MAX_PAYLOAD && Possible(fault, |Frames(p)|) && |Outcome(p, fault)| == 1
    requires !fault.DuplicateCf?
    ensures Lenient(Apply(Frames(p), fault)) == Outcome(p, fault)[0]
  {
    var r := Apply(Frames(p), fault);
    FaultOutcome(Idle, p, fault);
    KeepsShape(p, fault, r);
    AgreesOn(r, Outcome(p, fault)[0]);
  }

  lemma AgreesOn(r: seq<Frame>, q: seq<byte>)
    requires |r| > 1 && IsFirst(r[0]) && AllCf(r[1..]) && Delivered(Idle, r) == [q]
    ensures Lenient(r) == q
  {
    assert r == [r[0]] + r[1..];
    LenientAgrees(r[0], r[1..], q);
  }

  lemma KeepsShape(p: seq<byte>, fault: Fault, r: seq<Frame>)
    requires 8 <= |p| <= MAX_PAYLOAD && Possible(fault, |Frames(p)|) && |Outcome(p, fault)| == 1
    requires !fault.DuplicateCf? && r == Apply(Frames(p), fault)
    ensures |r| > 1 && IsFirst(r[0]) && AllCf(r[1..])
  {
    CfsAreNumbered(p);
    DataOfFrames(p);
    match fault
    case NoFault => assert r[1..] == ConsecutiveFrames(p);
    case WrongDid(delta) => ShiftedIsFirst(FirstFrame(p), delta);
      assert r[1..] == ConsecutiveFrames(p);
    case WrongService => assert r[1..] == ConsecutiveFrames(p);
    case ShortPayload(n) => ShortKeepsShape(p, n, r);
    case WrongPadding => RepaddedKeepsShape(p, r);
    case WrongLen =>
      AppliedLength(p);
      RelabelledFirst(FirstFrame(p), Min(|p| + 1, MAX_PAYLOAD));
  }

  lemma ShiftedIsFirst(f: Frame, delta: nat)
    requires IsFirst(f)
    ensures IsFirst(ShiftDid(f, 3, delta))
  {
  }

  lemma ShortKeepsShape(p: seq<byte>, n: nat, r: seq<Frame>)
    requires 8 <= |p| <= MAX_PAYLOAD && 1 <= n <= 3 && r == Apply(Frames(p), ShortPayload(n))
    requires IsFirst(FirstFrame(p)) && AllCf(ConsecutiveFrames(p))
    ensures |r| > 1 && IsFirst(r[0]) && AllCf(r[1..])
  {
    AppliedShort(p, n);
  }

  lemma RepaddedKeepsShape(p: seq<byte>, r: seq<Frame>)
    requires 8 <= |p| <= MAX_PAYLOAD && r == RepadFrames(Frames(p)) && AllCf(ConsecutiveFrames(p))
    ensures |r| > 1 && IsFirst(r[0]) && AllCf(r[1..])
  {
    RepaddedHeader(p);
    forall i | 0 <= i < |r| - 1
      ensures IsCf(r[1..][i])
    {
      RepaddedCf(ConsecutiveFrames(p)[i]);
      assert r[1..][i] == RepadAll(ConsecutiveFrames(p)[i]);
    }
  }

  lemma RepaddedCf(f: Frame)
    requires IsCf(f)
    ensures IsCf(RepadAll(f))
  {
  }

  lemma {:induction false} BodySplice(cs: seq<Frame>, i: nat, f: Frame)
    requires i < |cs| && f[1..] == cs[i][1..]
    ensures Body(cs[i := f]) == Body(cs)
  {
    if i > 0 {
      assert cs[i := f][1..] == cs[1..][i - 1 := f];
      BodySplice(cs[1..], i - 1, f);
    } else {
      assert cs[i := f][1..] == cs[1..];
    }
  }

  lemma OverlookedSeq(p: seq<byte>, i: nat)
    requires 8 <= |p| <= MAX_PAYLOAD && 1 <= i < |Frames(p)|
    ensures Lenient(Apply(Frames(p), WrongSeq(i))) == p
  {
    var all := ConsecutiveFrames(p);
    var r := Apply(Frames(p), WrongSeq(i));
    BodySplice(all, i - 1, BumpSeq(all[i - 1]));
    assert r[0] == FirstFrame(p) && r[1..] == all[i - 1 := BumpSeq(all[i - 1])];
    DataOfFrames(p);
  }

  lemma OverlookedLength(p: seq<byte>)
    requires 8 <= |p| <= MAX_PAYLOAD && (|p| - 6) % 7 == 0
    ensures Lenient(Apply(Frames(p), WrongLen)) == p
  {
    var ff, all := FirstFrame(p), ConsecutiveFrames(p);
    var ff' := WithLength(ff, |p| + 1);
    AppliedLength(p);
    DataOfFrames(p);
    RelabelledFirst(ff, |p| + 1);
    LenientIs(ff', all);
    FullData(p, ff');
  }

  /** Data that fill the last frame have no padding behind them. */
  lemma FullData(p: seq<byte>, ff: Frame)
    requires 8 <= |p| <= MAX_PAYLOAD && (|p| - 6) % 7 == 0 && ff[2..] == FirstFrame(p)[2..]
    ensures Data(ff, ConsecutiveFrames(p)) == p
  {
    DataOfFrames(p);
    assert ff[2..8] == ff[2..] && FirstFrame(p)[2..8] == FirstFrame(p)[2..];
    assert p + [] == p;
  }

  lemma {:induction false} BodyConcat(a: seq<Frame>, b: seq<Frame>)
    ensures Body(a + b) == Body(a) + Body(b)
  {
    if a == [] {
      assert a + b == b;
    } else {
      ConcatTail(a, b);
      BodyConcat(a[1..], b);
      Regroup(a[0][1..], Body(a[1..]), Body(b));
    }
  }

  lemma DataIsPadded(p: seq<byte>)
    requires 8 <= |p| <= MAX_PAYLOAD
    ensures Data(FirstFrame(p), ConsecutiveFrames(p)) == Padded(p)
  {
    DataOfFrames(p);
  }

  /** The data of the frames of `p`, before and from Consecutive Frame `i` (from 0) on. */
  lemma DataSplit(p: seq<byte>, i: nat)
    requires 8 <= |p| <= MAX_PAYLOAD && i <= CfCount(|p| - 6)
    ensures var all := ConsecutiveFrames(p);
      && Data(FirstFrame(p), all[..i]) == Padded(p)[..6 + 7 * i]
      && Body(all[i..]) == Padded(p)[6 + 7 * i..]
  {
    var ff, all := FirstFrame(p), ConsecutiveFrames(p);
    DataIsPadded(p);
    SplitAt(all, i);
    DataConcat(ff, all[..i], all[i..]);
    PartsOf(Data(ff, all[..i]), Body(all[i..]), Padded(p), 6 + 7 * i);
  }

  lemma PartsOf<T>(a: seq<T>, b: seq<T>, whole: seq<T>, n: nat)
    requires a + b == whole && |a| == n
    ensures a == whole[..n] && b == whole[n..]
  {
  }

  lemma DataConcat(ff: Frame, a: seq<Frame>, b: seq<Frame>)
    ensures Data(ff, a + b) == Data(ff, a) + Body(b)
  {
    BodyConcat(a, b);
  }

  /** Frames of `p` up to `i`, continued from `j`. */
  lemma Rejoined(p: seq<byte>, i: nat, j: nat)
    requires 8 <= |p| <= MAX_PAYLOAD && i <= CfCount(|p| - 6) && j <= CfCount(|p| - 6)
    ensures var all := ConsecutiveFrames(p);
      Data(FirstFrame(p), all[..i] + all[j..]) == Padded(p)[..6 + 7 * i] + Padded(p)[6 + 7 * j..]
  {
    var all := ConsecutiveFrames(p);
    DataSplit(p, i);
    DataSplit(p, j);
    DataConcat(FirstFrame(p), all[..i], all[j..]);
  }

  lemma LenientIs(ff: Frame, cs: seq<Frame>)
    requires cs != []
    ensures Lenient([ff] + cs) == Slice(Data(ff, cs), 0, AnnouncedLength(ff))
  {
    assert ([ff] + cs)[1..] == cs;
  }

  lemma LenientDropped(p: seq<byte>, i: nat, r: seq<Frame>)
    requires 8 <= |p| <= MAX_PAYLOAD && 1 <= i <= CfCount(|p| - 6)
    requires r == Frames(p)[..i] + Frames(p)[i + 1..]
    ensures Lenient(r) == if |p| <= 13 then [] else WithoutCf(p, i)
  {
    DropBehind(FirstFrame(p), ConsecutiveFrames(p), i);
    if |p| <= 13 {
      assert r == [FirstFrame(p)];
    } else {
      DroppedData(p, i, ConsecutiveFrames(p));
    }
  }

  lemma DroppedData(p: seq<byte>, i: nat, all: seq<Frame>)
    requires 14 <= |p| <= MAX_PAYLOAD && 1 <= i <= CfCount(|p| - 6) && all == ConsecutiveFrames(p)
    ensures Lenient([FirstFrame(p)] + (all[..i - 1] + all[i..])) == WithoutCf(p, i)
  {
    LenientIs(FirstFrame(p), all[..i - 1] + all[i..]);
    DataOfFrames(p);
    Rejoined(p, i - 1, i);
    Shortened(p, i);
  }

  lemma Shortened(p: seq<byte>, i: nat)
    requires 8 <= |p| && 1 <= i <= CfCount(|p| - 6)
    ensures |WithoutCf(p, i)| < |p| && Slice(WithoutCf(p, i), 0, |p|) == WithoutCf(p, i)
  {
  }

  lemma DropBehind<T>(x: T, a: seq<T>, i: nat)
    requires 1 <= i <= |a|
    ensures var b := [x] + a;
      b[..i] + b[i + 1..] == [x] + (a[..i - 1] + a[i..])
  {
  }

  lemma LenientDuplicated(p: seq<byte>, i: nat)
    requires 8 <= |p| <= MAX_PAYLOAD && 1 <= i <= CfCount(|p| - 6)
    ensures Lenient(Apply(Frames(p), DuplicateCf(i))) == WithCfTwice(p, i)
  {
    AppliedDuplicate(p, i);
    DuplicatedData(p, i, ConsecutiveFrames(p));
  }

  lemma DuplicatedData(p: seq<byte>, i: nat, all: seq<Frame>)
    requires 8 <= |p| <= MAX_PAYLOAD && 1 <= i <= CfCount(|p| - 6) && all == ConsecutiveFrames(p)
    ensures Lenient([FirstFrame(p)] + Duplicated(all, i)) == WithCfTwice(p, i)
  {
    LenientIs(FirstFrame(p), Duplicated(all, i));
    DataOfFrames(p);
    TwiceIs(all, i);
    Rejoined(p, i, i - 1);
    TwiceCut(p, i);
  }

  lemma TwiceIs(cs: seq<Frame>, i: nat)
    requires 1 <= i <= |cs|
    ensures Duplicated(cs, i) == cs[..i] + cs[i - 1..]
  {
  }

  lemma TwiceCut(p: seq<byte>, i: nat)
    requires 8 <= |p| && 1 <= i <= CfCount(|p| - 6)
    ensures Slice(Padded(p)[..6 + 7 * i] + Padded(p)[6 + 7 * (i - 1)..], 0, |p|) == WithCfTwice(p, i)
  {
  }

  lemma LenientTruncated(p: seq<byte>)
    requires 8 <= |p| <= MAX_PAYLOAD
    ensures Lenient(Apply(Frames(p), TruncatedMf)) == LoneFirst(p)
  {
    assert Apply(Frames(p), TruncatedMf) == [FirstFrame(p)];
    assert FirstFrame(p) == [FirstFrame(p)[0]] + ([|p| % 256] + p[..6]);
  }

  // ----- When a fault goes unnoticed -----------------------------------------

  /** What a DoIP client gets is the response itself. */
  predicate Unharmed(p: seq<byte>, fault: Fault)
    requires 1 <= |p| <= MAX_PAYLOAD && Possible(fault, |Frames(p)|)
  {
    if |p| <= 7 && NeedsCf(fault) then true
    else
      match fault
      case NoFault | WrongSeq(_) => true
      case WrongDid(delta) => |p| == 1 || (|p| == 2 && 0xCC + delta < 256)
      case WrongService => p[0] == 0
      case ShortPayload(n) => forall i | Max(0, |p| - Overwritten(p, n)) <= i < |p| :: p[i] == PADDING
      case WrongPadding => PADDING !in p && !(|p| >= 8 && |p| % 256 == PADDING)
      case WrongLen => |p| == MAX_PAYLOAD || (|p| - 6) % 7 == 0
      case DuplicateCf(i) => forall j | 6 + 7 * i <= j < |p| :: p[j] == p[j - 7]
      case DropRandomCf(_) | DropLastCf | TruncatedMf => false
  }

  /** Exactly when the client of the lenient reassembly gets the response unharmed. */
  lemma LenientUnharmedIff(p: seq<byte>, fault: Fault)
    requires 1 <= |p| <= MAX_PAYLOAD && Possible(fault, |Frames(p)|)
    ensures Lenient(Apply(Frames(p), fault)) == p <==> Unharmed(p, fault)
  {
    LenientExact(p, fault);
    if NeedsCf(fault) {
      if |p| > 7 {
        StructureUnharmedIff(p, fault);
      }
    } else {
      ContentUnharmedIff(p, fault);
    }
  }

  lemma ContentUnharmedIff(p: seq<byte>, fault: Fault)
    requires 1 <= |p| <= MAX_PAYLOAD && Possible(fault, |Frames(p)|) && !NeedsCf(fault)
    ensures LenientOutcome(p, fault) == p <==> Unharmed(p, fault)
  {
    match fault
    case NoFault =>
    case WrongDid(delta) => DidUnharmedIff(p, delta);
    case WrongService => ServiceUnharmedIff(p);
    case ShortPayload(n) => ShortPayloadHarmlessIff(p, n);
    case WrongPadding => WrongPaddingHarmlessIff(p);
  }

  lemma StructureUnharmedIff(p: seq<byte>, fault: Fault)
    requires 8 <= |p| <= MAX_PAYLOAD && Possible(fault, |Frames(p)|) && NeedsCf(fault)
    ensures LenientOutcome(p, fault) == p <==> Unharmed(p, fault)
  {
    match fault
    case DuplicateCf(i) => TwiceUnharmedIff(p, i);
    case DropRandomCf(i) => Shortened(p, i);
    case DropLastCf => Shortened(p, CfCount(|p| - 6));
    case _ =>
  }

  lemma ServiceUnharmedIff(p: seq<byte>)
    requires 1 <= |p|
    ensures p[0 := 0] == p <==> p[0] == 0
  {
    assert p[0 := 0][0] == 0;
  }

  lemma DidUnharmedIff(p: seq<byte>, delta: nat)
    requires 1 <= |p| && 1 <= delta <= 254
    ensures DidShifted(p, delta) == p <==> |p| == 1 || (|p| == 2 && 0xCC + delta < 256)
  {
    if |p| >= 3 {
      WrongDidChangesOnlyDid(p, delta);
    } else if |p| == 2 {
      TwoByteDid(p, delta);
      CarryIff(p[1], delta);
    } else {
      assert DidShifted(p, delta) == [p[0]] == p;
    }
  }

  lemma TwoByteDid(p: seq<byte>, delta: nat)
    requires |p| == 2
    ensures var hi: nat := p[1];
      var b := ((hi * 256 + 0xCC + delta) % 0x10000) / 256;
      b < 256 && DidShifted(p, delta) == [p[0], b]
  {
  }

  /** The high byte stays as it is unless the low byte carries. */
  lemma CarryIff(hi: nat, delta: nat)
    requires hi < 256 && 1 <= delta <= 254
    ensures ((hi * 256 + 0xCC + delta) % 0x10000) / 256 == hi <==> 0xCC + delta < 256
  {
    if 0xCC + delta >= 256 {
      assert (hi * 256 + 0xCC + delta) / 256 == hi + 1;
    }
  }

  lemma TwiceUnharmedIff(p: seq<byte>, i: nat)
    requires 8 <= |p| && 1 <= i <= CfCount(|p| - 6)
    ensures WithCfTwice(p, i) == p <==> forall j | 6 + 7 * i <= j < |p| :: p[j] == p[j - 7]
  {
    var r := WithCfTwice(p, i);
    forall j | 0 <= j < |p|
      ensures r[j] == if j < 6 + 7 * i then p[j] else p[j - 7]
    {
    }
    if r == p {
      assert forall j | 6 + 7 * i <= j < |p| :: r[j] == p[j - 7];
    }
  }

  /** What a CAN client notices and a DoIP client does not: wherever the strict assembler
      delivers, both get the same; where it delivers nothing, the DoIP client is handed
      the outcome above, and that is the response itself for a wrong sequence number and
      for an inflated length when the data fill the last frame. */
  lemma LenientOverlooks(p: seq<byte>, fault: Fault)
    requires 8 <= |p| <= MAX_PAYLOAD && Possible(fault, |Frames(p)|)
    ensures Outcome(p, fault) != [] ==> Outcome(p, fault) == [LenientOutcome(p, fault)]
    ensures fault.WrongSeq? || (fault.WrongLen? && (|p| - 6) % 7 == 0) ==>
      Lenient(Apply(Frames(p), fault)) == p && Outcome(p, fault) == []
  {
    if fault == DuplicateCf(CfCount(|p| - 6)) {
      TwiceUnharmedIff(p, fault.index);
    }
    BothDeliver(p, fault);
    if fault.WrongSeq? {
      OverlookedSeq(p, fault.index);
    } else if fault.WrongLen? && (|p| - 6) % 7 == 0 {
      OverlookedLength(p);
    }
  }

  lemma BothDeliver(p: seq<byte>, fault: Fault)
    requires 8 <= |p| <= MAX_PAYLOAD && Possible(fault, |Frames(p)|)
    requires fault == DuplicateCf(CfCount(|p| - 6)) ==> LenientOutcome(p, fault) == p
    ensures Outcome(p, fault) != [] ==> Outcome(p, fault) == [LenientOutcome(p, fault)]
  {
  }
}

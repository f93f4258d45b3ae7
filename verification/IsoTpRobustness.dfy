/** ISO-TP reassembly on streams that nobody promised to be well formed. */
module IsoTpRobustness {
  import opened Bytes
  import opened IsoTp
  import opened IsoTpStreams
  import opened IsoTpTheorems

  // ----- Soundness and completeness on arbitrary streams ---------------------

  /** The frames that `feed` drops without a trace, branch by branch. */
  predicate Ignored(s: State, f: Frame) {
    match FrameType(f)
    case 0 => LowNibble(f) == 0 || LowNibble(f) > 7
    case 1 => AnnouncedLength(f) < 8
    case 2 => !s.active
    case _ => true
  }

  lemma IgnoredIff(s: State, f: Frame)
    ensures Ignored(s, f) <==> Step(s, f) == Reaction(s, None, None)
  {
  }

  /** A stream without the frames that were ignored when they arrived. */
  function Effective(fs: seq<Frame>): seq<Frame> {
    if fs == [] then []
    else
      var init, last := fs[..|fs| - 1], fs[|fs| - 1];
      Effective(init) + (if Ignored(After(Idle, init), last) then [] else [last])
  }

  lemma {:induction false} EffectiveSame(fs: seq<Frame>)
    ensures After(Idle, Effective(fs)) == After(Idle, fs)
    ensures Delivered(Idle, Effective(fs)) == Delivered(Idle, fs)
  {
    if fs != [] {
      var init, last := fs[..|fs| - 1], fs[|fs| - 1];
      EffectiveSame(init);
      StreamLast(Idle, fs);
      IgnoredIff(After(Idle, init), last);
      if Ignored(After(Idle, init), last) {
        assert Effective(fs) == Effective(init);
      } else {
        assert Effective(fs)[..|Effective(fs)| - 1] == Effective(init);
        StreamLast(Idle, Effective(fs));
      }
    }
  }

  predicate NumberedFromOne(cs: seq<Frame>) {
    AllCf(cs) && forall i | 0 <= i < |cs| :: LowNibble(cs[i]) == (1 + i) % 16
  }

  lemma NumberedInOrder(cs: seq<Frame>)
    requires NumberedFromOne(cs)
    ensures InOrder(cs, 1) == |cs|
  {
    InOrderAt(cs, 1);
  }

  /** `e` is exactly one message, and its payload is `p`. */
  predicate IsMessage(e: seq<Frame>, p: seq<byte>) {
    && e != []
    && if IsSingle(e[0]) then
         |e| == 1 && p == e[0][1..1 + LowNibble(e[0])]
       else
         && IsFirst(e[0])
         && |e| - 1 == Needed(e[0])
         && NumberedFromOne(e[1..])
         && p == Data(e[0], e[1..])[..AnnouncedLength(e[0])]
  }

  /** A message delivers its payload from any state, on its last frame only. */
  lemma MessageDelivers(s: State, e: seq<Frame>, p: seq<byte>)
    requires IsMessage(e, p)
    ensures Delivered(s, e) == [p] && Delivered(s, e[..|e| - 1]) == []
  {
    if IsSingle(e[0]) {
      assert e == [e[0]];
      SingleExact(s, e[0]);
    } else {
      var ff, cs := e[0], e[1..];
      assert e == [ff] + cs && e[..|e| - 1] == [ff] + cs[..|cs| - 1];
      NumberedInOrder(cs);
      MultiExact(s, ff, cs);
      MultiExact(s, ff, cs[..|cs| - 1]);
    }
  }

  /** An open message is the tail of the effective frames. */
  ghost predicate OpenFrom(e: seq<Frame>, k: nat, s: State) {
    && k < |e| && IsFirst(e[k])
    && |e| - k - 1 < Needed(e[k])
    && NumberedFromOne(e[k + 1..])
    && s.active && s.expected == AnnouncedLength(e[k]) && s.buffer == Data(e[k], e[k + 1..])
  }

  lemma {:induction false} FindOpen(fs: seq<Frame>) returns (k: nat)
    requires After(Idle, fs).active
    ensures OpenFrom(Effective(fs), k, After(Idle, fs))
  {
    var init, last := fs[..|fs| - 1], fs[|fs| - 1];
    var s := After(Idle, init);
    StreamLast(Idle, fs);
    IgnoredIff(s, last);
    if Ignored(s, last) {
      k := FindOpen(init);
      assert Effective(fs) == Effective(init);
    } else if IsFirst(last) {
      k := |Effective(init)|;
      assert Effective(fs)[k + 1..] == [];
    } else {
      k := FindOpen(init);
      OpenExtend(Effective(init), k, s, last);
      assert Effective(fs) == Effective(init) + [last];
    }
  }

  lemma DataSnoc(ff: Frame, cs: seq<Frame>, f: Frame)
    ensures Data(ff, cs + [f]) == Data(ff, cs) + f[1..]
  {
    BodyPrefix(cs + [f], |cs|);
    BodyAt(cs + [f], |cs|);
    assert (cs + [f])[..|cs|] == cs;
  }

  lemma TailSnoc(e: seq<Frame>, k: nat, f: Frame)
    requires k < |e|
    ensures (e + [f])[k] == e[k] && (e + [f])[k + 1..] == e[k + 1..] + [f]
    ensures (e + [f])[k..] == [e[k]] + (e[k + 1..] + [f])
  {
  }

  /** One more Consecutive Frame on an open message. */
  lemma OpenExtend(e: seq<Frame>, k: nat, s: State, f: Frame)
    requires OpenFrom(e, k, s) && IsCf(f) && LowNibble(f) == s.nextSeq
    ensures Step(s, f).next.active ==> OpenFrom(e + [f], k, Step(s, f).next)
    ensures Step(s, f).payload.Some? ==> IsMessage((e + [f])[k..], Step(s, f).payload.value)
  {
    var ff, cs := e[k], e[k + 1..];
    TailSnoc(e, k, f);
    DataSnoc(ff, cs, f);
    CfOpen(s, f);
    assert NumberedFromOne(cs + [f]);
    if Step(s, f).payload.Some? {
      assert ([ff] + (cs + [f]))[1..] == cs + [f];
    }
  }

  ghost predicate EndsInMessage(e: seq<Frame>, p: seq<byte>) {
    exists k | 0 <= k < |e| :: IsMessage(e[k..], p)
  }

  /** `feed` returns a payload exactly when the frame that came in is not ignored
      and completes one whole message among the frames that were not ignored. */
  lemma DeliveryIff(fs: seq<Frame>, f: Frame, p: seq<byte>, r: Reaction)
    requires r == Step(After(Idle, fs), f)
    ensures r.payload == Some(p) <==>
      !Ignored(After(Idle, fs), f) && EndsInMessage(Effective(fs + [f]), p)
  {
    var s := After(Idle, fs);
    EffectiveSnoc(fs, f);
    IgnoredIff(s, f);
    if !Ignored(s, f) {
      if r.payload == Some(p) {
        CompletedMessage(fs, f, p);
      }
      if EndsInMessage(Effective(fs) + [f], p) {
        EndedMessage(fs, f, p);
      }
    }
  }

  lemma EffectiveSnoc(fs: seq<Frame>, f: Frame)
    ensures Effective(fs + [f])
      == Effective(fs) + if Ignored(After(Idle, fs), f) then [] else [f]
  {
    assert (fs + [f])[..|fs + [f]| - 1] == fs;
  }

  lemma DropSnoc<T>(s: seq<T>, x: T, k: nat)
    requires k <= |s|
    ensures (s + [x])[k..] == s[k..] + [x]
  {
  }

  lemma EndedMessage(fs: seq<Frame>, f: Frame, p: seq<byte>)
    requires EndsInMessage(Effective(fs) + [f], p)
    ensures Step(After(Idle, fs), f).payload == Some(p)
  {
    var e := Effective(fs) + [f];
    var k :| 0 <= k < |e| && IsMessage(e[k..], p);
    DropSnoc(Effective(fs), f, k);
    CompletesNow(fs, f, k, p);
  }

  lemma CompletedMessage(fs: seq<Frame>, f: Frame, p: seq<byte>)
    requires Step(After(Idle, fs), f).payload == Some(p)
    ensures EndsInMessage(Effective(fs) + [f], p)
  {
    var s, e := After(Idle, fs), Effective(fs) + [f];
    if IsCf(f) {
      var k := FindOpen(fs);
      OpenExtend(Effective(fs), k, s, f);
      assert IsMessage(e[k..], p);
    } else {
      assert e[|Effective(fs)|..] == [f];
      assert IsMessage(e[|Effective(fs)|..], p);
    }
  }

  lemma CompletesNow(fs: seq<Frame>, f: Frame, k: nat, p: seq<byte>)
    requires k <= |Effective(fs)| && IsMessage(Effective(fs)[k..] + [f], p)
    ensures Step(After(Idle, fs), f).payload == Some(p)
  {
    var head, tail := Effective(fs)[..k], Effective(fs)[k..];
    var t := After(Idle, head);
    EffectiveSplit(fs, k);
    MessageDelivers(t, tail + [f], p);
    assert (tail + [f])[..|tail|] == tail;
    LastDelivers(t, tail, f, p);
  }

  lemma EffectiveSplit(fs: seq<Frame>, k: nat)
    requires k <= |Effective(fs)|
    ensures After(After(Idle, Effective(fs)[..k]), Effective(fs)[k..]) == After(Idle, fs)
  {
    var e := Effective(fs);
    EffectiveSame(fs);
    assert e == e[..k] + e[k..];
    StreamConcat(Idle, e[..k], e[k..]);
  }

  lemma LastDelivers(t: State, tail: seq<Frame>, f: Frame, p: seq<byte>)
    requires Delivered(t, tail) == [] && Delivered(t, tail + [f]) == [p]
    ensures Step(After(t, tail), f).payload == Some(p)
  {
    StreamConcat(t, tail, [f]);
    StreamOne(After(t, tail), f);
    var o := Step(After(t, tail), f).payload;
    assert ToSeq(o) == [p];
    assert o == Some(p);
  }

  // ----- Resynchronisation ---------------------------------------------------

  /** A stream without its frames of type 3 and above. */
  function Denoise(fs: seq<Frame>): seq<Frame> {
    if fs == [] then []
    else (if FrameType(fs[0]) >= 3 then [] else [fs[0]]) + Denoise(fs[1..])
  }

  lemma {:induction false} NoiseIsTransparent(s: State, fs: seq<Frame>)
    ensures After(s, fs) == After(s, Denoise(fs))
    ensures Delivered(s, fs) == Delivered(s, Denoise(fs))
    decreases |fs|
  {
    if fs != [] {
      NoiseIsTransparent(Step(s, fs[0]).next, fs[1..]);
      if FrameType(fs[0]) >= 3 {
        assert Denoise(fs) == Denoise(fs[1..]);
      } else {
        assert Denoise(fs)[1..] == Denoise(fs[1..]);
      }
    }
  }

  lemma {:induction false} DenoiseAppend(a: seq<Frame>, b: seq<Frame>)
    ensures Denoise(a + b) == Denoise(a) + Denoise(b)
  {
    if a == [] {
      assert a + b == b;
    } else {
      ConcatTail(a, b);
      DenoiseAppend(a[1..], b);
      Regroup(if FrameType(a[0]) >= 3 then [] else [a[0]], Denoise(a[1..]), Denoise(b));
    }
  }

  /** Arbitrary frames, then the frames of one payload with noise among them. */
  datatype Block = Block(garbage: seq<Frame>, body: seq<Frame>, payload: seq<byte>) {
    predicate Carries() {
      && 1 <= |payload| <= MAX_PAYLOAD
      && body != [] && FrameType(body[|body| - 1]) < 3
      && Denoise(body) == Frames(payload)
    }
  }

  function StreamOf(bs: seq<Block>): seq<Frame> {
    if bs == [] then [] else bs[0].garbage + bs[0].body + StreamOf(bs[1..])
  }

  /** The payloads of all blocks in order, each behind whatever its own garbage
      delivers; later garbage always meets an idle assembler. */
  function Intact(s: State, bs: seq<Block>): seq<seq<byte>>
    decreases |bs|
  {
    if bs == [] then []
    else Delivered(s, bs[0].garbage) + [bs[0].payload] + Intact(Idle, bs[1..])
  }

  lemma BodyBeforeLast(b: Block)
    requires b.Carries()
    ensures Denoise(b.body[..|b.body| - 1]) == Frames(b.payload)[..|Frames(b.payload)| - 1]
  {
    var init, last := b.body[..|b.body| - 1], b.body[|b.body| - 1];
    assert b.body == init + [last];
    DenoiseAppend(init, [last]);
    assert Denoise([last]) == [last];
  }

  lemma BodyDelivers(s: State, b: Block)
    requires b.Carries()
    ensures Delivered(s, b.body) == [b.payload] && After(s, b.body) == Idle
    ensures Delivered(s, b.body[..|b.body| - 1]) == []
  {
    NoiseIsTransparent(s, b.body);
    NoiseIsTransparent(s, b.body[..|b.body| - 1]);
    BodyBeforeLast(b);
    RoundTrip(s, b.payload);
  }

  /** No message is lost, damaged or reordered by what surrounds it. */
  lemma {:induction false} Resynchronises(s: State, bs: seq<Block>)
    requires forall b | b in bs :: b.Carries()
    ensures Delivered(s, StreamOf(bs)) == Intact(s, bs)
    decreases |bs|
  {
    if bs != [] {
      var b := bs[0];
      var t := After(s, b.garbage);
      BodyDelivers(t, b);
      Resynchronises(Idle, bs[1..]);
      StreamConcat(s, b.garbage, b.body);
      StreamConcat(s, b.garbage + b.body, StreamOf(bs[1..]));
    }
  }

  // ----- Bytes of a message by position --------------------------------------

  /** Where one data byte of a message comes from. */
  lemma DataAt(ff: Frame, cs: seq<Frame>, j: nat)
    requires 6 <= j < 6 + 7 * |cs|
    ensures Data(ff, cs)[j] == cs[(j - 6) / 7][1 + (j - 6) % 7]
  {
    var k := (j - 6) / 7;
    BodyAt(cs, k);
    assert Data(ff, cs)[j] == Body(cs)[7 * k..7 * k + 7][(j - 6) % 7];
  }

  function ByteAt(ff: Frame, cs: seq<Frame>, j: nat): byte
    requires j < 6 + 7 * |cs|
  {
    if j < 6 then ff[2 + j] else cs[(j - 6) / 7][1 + (j - 6) % 7]
  }

  lemma DataByteAt(ff: Frame, cs: seq<Frame>, j: nat)
    requires j < 6 + 7 * |cs|
    ensures Data(ff, cs)[j] == ByteAt(ff, cs, j)
  {
    if j >= 6 {
      DataAt(ff, cs, j);
    }
  }

  lemma SourceByte(p: seq<byte>, j: nat)
    requires 8 <= |p| <= MAX_PAYLOAD && j < 6 + 7 * CfCount(|p| - 6)
    ensures ByteAt(FirstFrame(p), ConsecutiveFrames(p), j) == if j < |p| then p[j] else PADDING
  {
    DataByteAt(FirstFrame(p), ConsecutiveFrames(p), j);
    DataOfFrames(p);
  }

  /** A complete list of numbered frames delivers the bytes it holds. */
  lemma DeliversBytes(s: State, ff: Frame, cs: seq<Frame>, q: seq<byte>)
    requires IsFirst(ff) && AllCf(cs) && InOrder(cs, 1) >= Needed(ff)
    requires |q| == AnnouncedLength(ff) <= 6 + 7 * |cs|
    requires forall j: nat | j < |q| :: q[j] == ByteAt(ff, cs, j)
    ensures Delivered(s, [ff] + cs) == [q]
  {
    MultiExact(s, ff, cs);
    forall j | 0 <= j < |q|
      ensures Data(ff, cs)[j] == q[j]
    {
      DataByteAt(ff, cs, j);
    }
    assert Data(ff, cs)[..|q|] == q;
  }

  lemma HomeInOrder(p: seq<byte>, cs: seq<Frame>)
    requires 8 <= |p| && |cs| >= CfCount(|p| - 6)
    requires forall i | 0 <= i < CfCount(|p| - 6) :: cs[i] == ConsecutiveFrames(p)[i]
    ensures InOrder(cs, 1) >= CfCount(|p| - 6)
  {
    var all := ConsecutiveFrames(p);
    assert cs[..|all|] == all;
    CfsAreNumbered(p);
    InOrderPrefix(cs, 1, |all|);
  }

  lemma HomeData(p: seq<byte>, cs: seq<Frame>)
    requires 8 <= |p| <= MAX_PAYLOAD && |cs| >= CfCount(|p| - 6)
    requires forall i | 0 <= i < CfCount(|p| - 6) :: cs[i] == ConsecutiveFrames(p)[i]
    ensures Data(FirstFrame(p), cs)[..|p|] == p
  {
    var all, ff := ConsecutiveFrames(p), FirstFrame(p);
    assert cs[..|all|] == all;
    BodyPrefix(cs, |all|);
    DataOfFrames(p);
    assert Data(ff, all) == Data(ff, cs)[..6 + 7 * |all|];
  }

  lemma NumberAt(p: seq<byte>, j: nat)
    requires 8 <= |p| && j < CfCount(|p| - 6)
    ensures LowNibble(ConsecutiveFrames(p)[j]) == (1 + j) % 16
  {
  }

  /** `InOrder` looks at the sequence numbers only. */
  lemma {:induction false} InOrderByNumbers(a: seq<Frame>, b: seq<Frame>, k: nat)
    requires |a| == |b| && forall j | 0 <= j < |a| :: LowNibble(a[j]) == LowNibble(b[j])
    ensures InOrder(a, k) == InOrder(b, k)
  {
    if a != [] {
      InOrderByNumbers(a[1..], b[1..], (k + 1) % 16);
    }
  }
}

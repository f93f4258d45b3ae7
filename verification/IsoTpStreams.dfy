/** What an assembler does with whole streams of frames. */
module IsoTpStreams {
  import opened Bytes
  import opened IsoTp

  lemma {:induction false} StreamConcat(s: State, a: seq<Frame>, b: seq<Frame>)
    ensures After(s, a + b) == After(After(s, a), b)
    ensures Delivered(s, a + b) == Delivered(s, a) + Delivered(After(s, a), b)
    decreases |a|
  {
    if a == [] {
      assert a + b == b;
    } else {
      var r := Step(s, a[0]);
      ConcatTail(a, b);
      StreamConcat(r.next, a[1..], b);
      Regroup(ToSeq(r.payload), Delivered(r.next, a[1..]), Delivered(After(s, a), b));
    }
  }

  lemma StreamOne(s: State, f: Frame)
    ensures After(s, [f]) == Step(s, f).next
    ensures Delivered(s, [f]) == ToSeq(Step(s, f).payload)
  {
    assert [f][1..] == [];
  }

  /** A stream split before its last frame. */
  lemma StreamLast(s: State, fs: seq<Frame>)
    requires fs != []
    ensures var before := After(s, fs[..|fs| - 1]);
      && After(s, fs) == Step(before, fs[|fs| - 1]).next
      && Delivered(s, fs) == Delivered(s, fs[..|fs| - 1]) + ToSeq(Step(before, fs[|fs| - 1]).payload)
  {
    var init, last := fs[..|fs| - 1], fs[|fs| - 1];
    assert fs == init + [last];
    StreamConcat(s, init, [last]);
    StreamOne(After(s, init), last);
  }

  // ----- Consecutive Frames after a First Frame ------------------------------

  /** The data bytes of a list of Consecutive Frames. */
  function Body(cs: seq<Frame>): (b: seq<byte>)
    ensures |b| == 7 * |cs|
  {
    if cs == [] then [] else cs[0][1..] + Body(cs[1..])
  }

  /** How many frames at the front of `cs` carry the numbers k, k+1, ... mod 16. */
  function InOrder(cs: seq<Frame>, k: nat): (n: nat)
    ensures n <= |cs|
  {
    if cs == [] || LowNibble(cs[0]) != k then 0 else 1 + InOrder(cs[1..], (k + 1) % 16)
  }

  lemma ModShift(k: nat, n: nat)
    ensures ((k + 1) % 16 + n) % 16 == (k + 1 + n) % 16
  {
  }

  lemma {:induction false} InOrderAt(cs: seq<Frame>, k: nat)
    requires k < 16
    ensures var n := InOrder(cs, k);
      && (forall i | 0 <= i < n :: LowNibble(cs[i]) == (k + i) % 16)
      && (n < |cs| ==> LowNibble(cs[n]) != (k + n) % 16)
  {
    if cs != [] && LowNibble(cs[0]) == k {
      InOrderAt(cs[1..], (k + 1) % 16);
      var n := InOrder(cs, k);
      forall i | 0 <= i < n
        ensures LowNibble(cs[i]) == (k + i) % 16
      {
        if i > 0 {
          assert cs[i] == cs[1..][i - 1];
          ModShift(k, i - 1);
        }
      }
      if n < |cs| {
        assert cs[n] == cs[1..][n - 1];
        ModShift(k, n - 1);
      }
    }
  }

  /** Whatever follows a completed or aborted message is ignored. */
  lemma {:induction false} IdleIgnoresCfs(cs: seq<Frame>)
    requires AllCf(cs)
    ensures After(Idle, cs) == Idle && Delivered(Idle, cs) == []
  {
    if cs != [] {
      IdleIgnoresCfs(cs[1..]);
    }
  }

  /** The exact effect of any list of Consecutive Frames on an open message:
      it completes if and only if enough frames arrive in order, an out-of-order
      frame before that closes it silently, and otherwise it stays open. */
  ghost predicate CfLaw(s: State, cs: seq<Frame>)
    requires s.active
  {
    var n := InOrder(cs, s.nextSeq);
    if n >= s.Missing() then
      Delivered(s, cs) == [(s.buffer + Body(cs))[..s.expected]] && After(s, cs) == Idle
    else if n < |cs| then
      Delivered(s, cs) == [] && After(s, cs) == Idle
    else
      && Delivered(s, cs) == []
      && After(s, cs).active && After(s, cs).expected == s.expected && After(s, cs).buffer == s.buffer + Body(cs)
  }

  lemma {:induction false} CfListExact(s: State, cs: seq<Frame>)
    requires s.active && AllCf(cs)
    ensures CfLaw(s, cs)
    decreases |cs|
  {
    if cs == [] {
      assert s.buffer + Body(cs) == s.buffer;
    } else if LowNibble(cs[0]) != s.nextSeq {
      IdleIgnoresCfs(cs[1..]);
    } else {
      CfOpen(s, cs[0]);
      if s.Missing() == 1 {
        IdleIgnoresCfs(cs[1..]);
        assert (s.buffer + Body(cs))[..s.expected] == (s.buffer + cs[0][1..])[..s.expected];
      } else {
        CfListExact(Step(s, cs[0]).next, cs[1..]);
        CfLawStep(s, cs, Step(s, cs[0]).next);
      }
    }
  }

  lemma BodyCons(b: seq<byte>, cs: seq<Frame>)
    requires cs != []
    ensures (b + cs[0][1..]) + Body(cs[1..]) == b + Body(cs)
  {
  }

  lemma SilentStep(s: State, fs: seq<Frame>, t: State)
    requires fs != [] && Step(s, fs[0]).next == t && Step(s, fs[0]).payload == None
    ensures Delivered(s, fs) == Delivered(t, fs[1..]) && After(s, fs) == After(t, fs[1..])
  {
  }

  lemma CfLawStep(s: State, cs: seq<Frame>, t: State)
    requires s.active && cs != [] && s.Missing() > 1
    requires Step(s, cs[0]) == Reaction(t, None, None)
    requires t.active && t.expected == s.expected && t.buffer == s.buffer + cs[0][1..]
    requires t.nextSeq == (s.nextSeq + 1) % 16 && t.Missing() == s.Missing() - 1
    requires InOrder(cs, s.nextSeq) == 1 + InOrder(cs[1..], t.nextSeq)
    requires CfLaw(t, cs[1..])
    ensures CfLaw(s, cs)
  {
    BodyCons(s.buffer, cs);
    SilentStep(s, cs, t);
  }

  /** One correctly numbered Consecutive Frame. */
  lemma CfOpen(s: State, f: Frame)
    requires s.active && IsCf(f) && LowNibble(f) == s.nextSeq
    ensures s.Missing() == 1 ==> Step(s, f) == Reaction(Idle, Some((s.buffer + f[1..])[..s.expected]), None)
    ensures s.Missing() > 1 ==>
      && Step(s, f) == Reaction(Receiver(s.expected, s.buffer + f[1..], (s.nextSeq + 1) % 16, true), None, None)
      && Step(s, f).next.Missing() == s.Missing() - 1
  {
    var rem := s.expected - |s.buffer|;
    if rem <= 7 {
      var b := s.buffer + f[1..1 + rem];
      assert b == (s.buffer + f[1..])[..s.expected] && b[..s.expected] == b;
    } else {
      assert f[1..8] == f[1..];
    }
  }

  // ----- A First Frame and its Consecutive Frames ----------------------------

  predicate IsSingle(f: Frame) { FrameType(f) == 0 && 1 <= LowNibble(f) <= 7 }

  predicate IsFirst(f: Frame) { FrameType(f) == 1 && AnnouncedLength(f) >= 8 }

  /** The Consecutive Frames that a First Frame calls for. */
  function Needed(ff: Frame): nat
    requires IsFirst(ff)
  {
    CfCount(AnnouncedLength(ff) - 6)
  }

  /** All the data bytes of a First Frame and its Consecutive Frames, padding included. */
  function Data(ff: Frame, cs: seq<Frame>): (b: seq<byte>)
    ensures |b| == 6 + 7 * |cs|
  {
    ff[2..8] + Body(cs)
  }

  /** What a First Frame followed by Consecutive Frames delivers. */
  function MultiOutcome(ff: Frame, cs: seq<Frame>): seq<seq<byte>>
    requires IsFirst(ff)
  {
    if InOrder(cs, 1) >= Needed(ff) then [Data(ff, cs)[..AnnouncedLength(ff)]] else []
  }

  /** A First Frame forgets the past, so the outcome does not depend on the state. */
  lemma MultiExact(s: State, ff: Frame, cs: seq<Frame>)
    requires IsFirst(ff) && AllCf(cs)
    ensures Delivered(s, [ff] + cs) == MultiOutcome(ff, cs)
    ensures InOrder(cs, 1) >= Needed(ff) || InOrder(cs, 1) < |cs| ==> After(s, [ff] + cs) == Idle
    ensures InOrder(cs, 1) == |cs| < Needed(ff) ==>
      var t := After(s, [ff] + cs);
      t.active && t.expected == AnnouncedLength(ff) && t.buffer == Data(ff, cs)
  {
    var t := Step(s, ff).next;
    assert ([ff] + cs)[1..] == cs;
    CfListExact(t, cs);
  }

  lemma SingleExact(s: State, f: Frame)
    requires IsSingle(f)
    ensures After(s, [f]) == Idle && Delivered(s, [f]) == [f[1..1 + LowNibble(f)]]
  {
    StreamOne(s, f);
  }

  // ----- The frames of a payload ---------------------------------------------

  lemma CfsAreNumbered(p: seq<byte>)
    requires 8 <= |p|
    ensures AllCf(ConsecutiveFrames(p))
    ensures forall i | 0 <= i < CfCount(|p| - 6) :: LowNibble(ConsecutiveFrames(p)[i]) == (1 + i) % 16
    ensures InOrder(ConsecutiveFrames(p), 1) == CfCount(|p| - 6)
  {
    InOrderAt(ConsecutiveFrames(p), 1);
  }

  lemma {:induction false} BodyFrom(p: seq<byte>, i: nat)
    requires 8 <= |p| && i <= CfCount(|p| - 6)
    ensures var cs := ConsecutiveFrames(p);
      Body(cs[i..]) == Rest(p, i) + Repeat(PADDING, 6 + 7 * |cs| - Max(|p|, 6 + 7 * i))
    decreases CfCount(|p| - 6) - i
  {
    var cs := ConsecutiveFrames(p);
    if i < |cs| {
      BodyFrom(p, i + 1);
      assert cs[i..][1..] == cs[i + 1..];
      assert cs[i] == Pad([0x20 + (1 + i) % 16] + Slice(p, 6 + 7 * i, 13 + 7 * i));
      BodyHead(p, i);
    }
  }

  /** One frame of `BodyFrom`. */
  lemma BodyHead(p: seq<byte>, i: nat)
    requires 8 <= |p| && i < CfCount(|p| - 6)
    ensures var k := 6 + 7 * CfCount(|p| - 6);
      ConsecutiveFrame(p, i)[1..] + (Rest(p, i + 1) + Repeat(PADDING, k - Max(|p|, 13 + 7 * i)))
        == Rest(p, i) + Repeat(PADDING, k - Max(|p|, 6 + 7 * i))
  {
  }

  /** The data bytes of the frames are the payload and the padding behind it. */
  lemma DataOfFrames(p: seq<byte>)
    requires 8 <= |p| <= MAX_PAYLOAD
    ensures var cs := ConsecutiveFrames(p);
      && IsFirst(FirstFrame(p)) && AnnouncedLength(FirstFrame(p)) == |p| && Needed(FirstFrame(p)) == |cs|
      && 0 <= 6 + 7 * |cs| - |p| <= 6
      && Data(FirstFrame(p), cs) == p + Repeat(PADDING, 6 + 7 * |cs| - |p|)
  {
    BodyFrom(p, 0);
    var cs := ConsecutiveFrames(p);
    assert cs[0..] == cs;
    assert p == p[..6] + Rest(p, 0);
    assert FirstFrame(p)[2..8] == p[..6];
  }
}

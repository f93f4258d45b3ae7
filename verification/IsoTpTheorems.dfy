/** The laws of the ISO-TP layer on clean streams: round trip, reachable states, and
    parsing as the inverse of printing. */
module IsoTpTheorems {
  import opened Bytes
  import opened IsoTp
  import opened IsoTpStreams

  // ----- The frames byte by byte ---------------------------------------------

  function ByteOrCC(p: seq<byte>, j: nat): byte { if j < |p| then p[j] else 0xCC }

  /** The layout of a message: up to 7 bytes in one frame behind their number; else a frame
      with the 12-bit length and 6 bytes, then frames numbered from 1 with 7 bytes each;
      0xCC behind the last byte. */
  predicate LaidOut(fs: seq<Frame>, p: seq<byte>) {
    && |fs| == 1 + (if |p| <= 7 then 0 else |p| / 7)
    && (|p| <= 7 ==> fs[0][0] == |p|)
    && (|p| > 7 ==> fs[0][0] == 0x10 + |p| / 256 && fs[0][1] == |p| % 256)
    && (forall t | (if |p| <= 7 then 1 else 2) <= t < 8 ::
          fs[0][t] == ByteOrCC(p, t - if |p| <= 7 then 1 else 2))
    && (forall i | 1 <= i < |fs| :: fs[i][0] == 0x20 + i % 16)
    && (forall i, t | 1 <= i < |fs| && 1 <= t < 8 :: fs[i][t] == ByteOrCC(p, 7 * i + t - 2))
  }

  lemma ConsecutiveBytes(p: seq<byte>, i: nat, t: nat)
    requires 8 <= |p| && 1 <= i <= |p| / 7 && 1 <= t < 8
    ensures ConsecutiveFrame(p, i - 1)[0] == 0x20 + i % 16
    ensures ConsecutiveFrame(p, i - 1)[t] == ByteOrCC(p, 7 * i + t - 2)
  {
    var lo := 7 * i - 1;
    var data := Slice(p, lo, lo + 7);
    assert ConsecutiveFrame(p, i - 1) == Pad([0x20 + i % 16] + data);
    assert t - 1 < |data| ==> data[t - 1] == p[lo + (t - 1)];
  }

  lemma FramesLaidOut(p: seq<byte>)
    requires |p| <= MAX_PAYLOAD
    ensures LaidOut(Frames(p), p)
  {
    var fs := Frames(p);
    forall i, t | 1 <= i < |fs| && 1 <= t < 8
      ensures fs[i][0] == 0x20 + i % 16 && fs[i][t] == ByteOrCC(p, 7 * i + t - 2)
    {
      ConsecutiveBytes(p, i, t);
    }
    forall i | 1 <= i < |fs|
      ensures fs[i][0] == 0x20 + i % 16
    {
      assert fs[i][1] == ByteOrCC(p, 7 * i - 1);
    }
  }

  lemma LaidOutOnce(a: seq<Frame>, b: seq<Frame>, p: seq<byte>)
    requires LaidOut(a, p) && LaidOut(b, p)
    ensures a == b
  {
    assert a[0] == b[0];
    forall i | 1 <= i < |a|
      ensures a[i] == b[i]
    {
      assert forall t | 1 <= t < 8 :: a[i][t] == ByteOrCC(p, 7 * i + t - 2) == b[i][t];
    }
  }

  /** Segmentation raises above 4095 bytes and else gives exactly the frames of this layout. */
  lemma FrameBytes(p: seq<byte>, fs: seq<Frame>)
    ensures Segment(p) == Ok(fs) <==> |p| <= 4095 && LaidOut(fs, p)
  {
    if |p| <= MAX_PAYLOAD {
      FramesLaidOut(p);
      if LaidOut(fs, p) {
        LaidOutOnce(fs, Frames(p), p);
      }
    }
  }

  /** An assembler asks for more, in these bytes, on a first frame that announces at least
      8 bytes and on no other. */
  lemma PromptIff(s: State, f: Frame)
    ensures Step(s, f).fc.Some? <==> f[0] / 16 == 1 && f[0] as int % 16 * 256 + f[1] >= 8
    ensures Step(s, f).fc.Some? ==> Step(s, f).fc.value == [0x30, 0, 0, 0xCC, 0xCC, 0xCC, 0xCC, 0xCC]
  {
  }

  // ----- Round trip ----------------------------------------------------------

  /** From any state an assembler can be in, the frames of a payload deliver that
      payload, once, on the last frame. */
  lemma RoundTrip(s: State, p: seq<byte>)
    requires 1 <= |p| <= MAX_PAYLOAD
    ensures Delivered(s, Frames(p)) == [p] && After(s, Frames(p)) == Idle
    ensures forall k | 0 <= k < |Frames(p)| :: Delivered(s, Frames(p)[..k]) == []
  {
    if |p| <= 7 {
      SingleExact(s, SingleFrame(p));
      assert SingleFrame(p)[1..1 + |p|] == p;
    } else {
      MultiTrip(s, p);
      forall k | 1 <= k < |Frames(p)|
        ensures Delivered(s, Frames(p)[..k]) == []
      {
        FrontIsSilent(s, p, k);
      }
    }
  }

  lemma MultiTrip(s: State, p: seq<byte>)
    requires 8 <= |p| <= MAX_PAYLOAD
    ensures Delivered(s, Frames(p)) == [p] && After(s, Frames(p)) == Idle
  {
    var ff, cs := FirstFrame(p), ConsecutiveFrames(p);
    CfsAreNumbered(p);
    DataOfFrames(p);
    MultiExact(s, ff, cs);
    assert Data(ff, cs)[..|p|] == p;
  }

  lemma FrontIsSilent(s: State, p: seq<byte>, k: nat)
    requires 8 <= |p| <= MAX_PAYLOAD && 1 <= k < |Frames(p)|
    ensures Delivered(s, Frames(p)[..k]) == []
  {
    var ff, cs := FirstFrame(p), ConsecutiveFrames(p);
    CfsAreNumbered(p);
    DataOfFrames(p);
    assert Frames(p)[..k] == [ff] + cs[..k - 1];
    MultiExact(s, ff, cs[..k - 1]);
  }

  lemma {:induction false} BodyPrefix(cs: seq<Frame>, k: nat)
    requires k <= |cs|
    ensures Body(cs[..k]) == Body(cs)[..7 * k]
  {
    if k > 0 {
      assert cs[..k][1..] == cs[1..][..k - 1];
      BodyPrefix(cs[1..], k - 1);
    }
  }

  ghost predicate Reaches(fs: seq<Frame>, r: Receiver) { After(Idle, fs) == r }

  /** The class invariant describes exactly the states that streams lead to. */
  lemma ReachableIff(r: Receiver)
    ensures r.Valid() <==> exists fs: seq<Frame> :: Reaches(fs, r)
  {
    if r.Valid() {
      var fs := StreamTo(r);
      assert Reaches(fs, r);
    }
  }

  /** The assembler behind the First Frame of `p` and `k` Consecutive Frames. */
  lemma OpenAfter(p: seq<byte>, k: nat)
    requires 8 <= |p| <= MAX_PAYLOAD && k < CfCount(|p| - 6)
    ensures var r := After(Idle, [FirstFrame(p)] + ConsecutiveFrames(p)[..k]);
      r.active && r.expected == |p| && 6 + 7 * k < |p| && r.buffer == p[..6 + 7 * k]
  {
    var ff, cs := FirstFrame(p), ConsecutiveFrames(p);
    CfsAreNumbered(p);
    DataOfFrames(p);
    InOrderPrefix(cs, 1, k);
    MultiExact(Idle, ff, cs[..k]);
    BodyPrefix(cs, k);
    assert Data(ff, cs)[..|p|] == p;
    PrefixOf(ff[2..8], Body(cs), 7 * k, p);
  }

  lemma PrefixOf<T>(a: seq<T>, b: seq<T>, k: nat, p: seq<T>)
    requires k <= |b| && |a| + k <= |p| <= |a| + |b| && (a + b)[..|p|] == p
    ensures a + b[..k] == p[..|a| + k]
  {
    assert forall j | 0 <= j < |a| + k :: p[j] == (a + b)[j];
  }

  lemma StreamTo(r: State) returns (fs: seq<Frame>)
    ensures After(Idle, fs) == r
  {
    if !r.active {
      return [];
    }
    var p := r.buffer + Repeat(0, r.expected - |r.buffer|);
    var k := (|r.buffer| - 6) / 7;
    OpenAfter(p, k);
    assert p[..6 + 7 * k] == r.buffer;
    fs := [FirstFrame(p)] + ConsecutiveFrames(p)[..k];
  }

  // ----- Parsing is the inverse of printing ----------------------------------

  /** The bytes of a message that no payload byte occupies are 0xCC. */
  predicate PaddedCanonically(fs: seq<Frame>)
    requires fs != []
  {
    if IsSingle(fs[0]) then
      forall i | LowNibble(fs[0]) < i < 8 :: fs[0][i] == PADDING
    else IsFirst(fs[0]) ==>
      forall i | AnnouncedLength(fs[0]) <= i < 6 + 7 * (|fs| - 1) :: Data(fs[0], fs[1..])[i] == PADDING
  }

  /** One start frame, then Consecutive Frames, and `p` is what the last of them delivers. */
  predicate SpellsOut(fs: seq<Frame>, p: seq<byte>) {
    && fs != []
    && (IsSingle(fs[0]) || IsFirst(fs[0]))
    && AllCf(fs[1..])
    && Delivered(Idle, fs) == [p]
    && Delivered(Idle, fs[..|fs| - 1]) == []
  }

  /** `segment` is the only canonical way to write a payload down. */
  lemma ParsePrintIff(fs: seq<Frame>, p: seq<byte>)
    requires 1 <= |p| <= MAX_PAYLOAD
    ensures fs == Frames(p) <==> SpellsOut(fs, p) && PaddedCanonically(fs)
  {
    if fs == Frames(p) {
      PrintedIsCanonical(p);
    }
    if SpellsOut(fs, p) && PaddedCanonically(fs) {
      if IsSingle(fs[0]) {
        SingleParse(fs, p);
      } else {
        MultiParse(fs, p);
      }
    }
  }

  lemma PrintedIsCanonical(p: seq<byte>)
    requires 1 <= |p| <= MAX_PAYLOAD
    ensures SpellsOut(Frames(p), p) && PaddedCanonically(Frames(p))
  {
    RoundTrip(Idle, p);
    if |p| >= 8 {
      CfsAreNumbered(p);
      DataOfFrames(p);
      assert Frames(p)[1..] == ConsecutiveFrames(p);
    }
  }

  lemma SingleParse(fs: seq<Frame>, p: seq<byte>)
    requires 1 <= |p| <= MAX_PAYLOAD
    requires SpellsOut(fs, p) && PaddedCanonically(fs) && IsSingle(fs[0])
    ensures fs == Frames(p)
  {
    assert fs == [fs[0]] + fs[1..];
    StreamConcat(Idle, [fs[0]], fs[1..]);
    SingleExact(Idle, fs[0]);
    assert |fs| == 1;
    assert fs[0] == SingleFrame(p);
  }

  lemma MultiParse(fs: seq<Frame>, p: seq<byte>)
    requires 1 <= |p| <= MAX_PAYLOAD
    requires SpellsOut(fs, p) && PaddedCanonically(fs) && IsFirst(fs[0])
    ensures fs == Frames(p)
  {
    var ff, cs := fs[0], fs[1..];
    assert fs == [ff] + cs;
    MultiExact(Idle, ff, cs);
    assert |p| == AnnouncedLength(ff) && p == Data(ff, cs)[..|p|];
    NoneTooMany(fs, p);
    FirstFromData(ff, p);
    CfsFromData(ff, cs, p);
  }

  /** Payload delivered on the last frame only: no Consecutive Frame is superfluous. */
  lemma NoneTooMany(fs: seq<Frame>, p: seq<byte>)
    requires SpellsOut(fs, p) && IsFirst(fs[0])
    ensures |fs| - 1 == Needed(fs[0]) == InOrder(fs[1..], 1)
  {
    var ff, cs := fs[0], fs[1..];
    assert fs == [ff] + cs;
    MultiExact(Idle, ff, cs);
    if cs != [] {
      assert fs[..|fs| - 1] == [ff] + cs[..|cs| - 1];
      MultiExact(Idle, ff, cs[..|cs| - 1]);
      InOrderPrefix(cs, 1, |cs| - 1);
    }
  }

  lemma CfsFromData(ff: Frame, cs: seq<Frame>, p: seq<byte>)
    requires IsFirst(ff) && AllCf(cs) && |cs| == InOrder(cs, 1) && 8 <= |p|
    requires CfCount(|p| - 6) == |cs| && p == Data(ff, cs)[..|p|]
    requires forall j | |p| <= j < 6 + 7 * |cs| :: Data(ff, cs)[j] == PADDING
    ensures cs == ConsecutiveFrames(p)
  {
    InOrderAt(cs, 1);
    forall i: nat | i < |cs|
      ensures cs[i] == ConsecutiveFrame(p, i)
    {
      OneCfFromData(ff[2..8], cs, i, p, Data(ff, cs));
    }
  }

  lemma OneCfFromData(head: seq<byte>, cs: seq<Frame>, i: nat, p: seq<byte>, data: seq<byte>)
    requires |head| == 6 && i < |cs| && IsCf(cs[i]) && LowNibble(cs[i]) == (1 + i) % 16
    requires data == head + Body(cs) && |p| <= |data| && data[..|p|] == p
    requires forall j | |p| <= j < |data| :: data[j] == PADDING
    ensures cs[i] == ConsecutiveFrame(p, i)
  {
    BodyAt(cs, i);
    BehindHead(head, Body(cs), 7 * i, 7 * i + 7);
    CfFromData(cs[i], i, p, data);
  }

  lemma BehindHead<T>(a: seq<T>, b: seq<T>, lo: nat, hi: nat)
    requires lo <= hi <= |b|
    ensures (a + b)[|a| + lo..|a| + hi] == b[lo..hi]
  {
  }

  lemma FirstFromData(ff: Frame, p: seq<byte>)
    requires IsFirst(ff) && |p| == AnnouncedLength(ff) && p[..6] == ff[2..8]
    ensures ff == FirstFrame(p)
  {
    assert ff == [ff[0], ff[1]] + ff[2..8];
  }

  lemma CfFromData(c: Frame, i: nat, p: seq<byte>, data: seq<byte>)
    requires IsCf(c) && LowNibble(c) == (1 + i) % 16
    requires |p| <= |data| && data[..|p|] == p && forall j | |p| <= j < |data| :: data[j] == PADDING
    requires 13 + 7 * i <= |data| && c[1..] == data[6 + 7 * i..13 + 7 * i]
    ensures c == ConsecutiveFrame(p, i)
  {
    var f := ConsecutiveFrame(p, i);
    forall j | 0 <= j < 8
      ensures c[j] == f[j]
    {
      assert j > 0 ==> c[j] == data[5 + 7 * i + j];
    }
  }

  lemma {:induction false} BodyAt(cs: seq<Frame>, i: nat)
    requires i < |cs|
    ensures Body(cs)[7 * i..7 * i + 7] == cs[i][1..]
  {
    if i > 0 {
      BodyAt(cs[1..], i - 1);
      assert Body(cs)[7 * i..7 * i + 7] == Body(cs[1..])[7 * (i - 1)..7 * (i - 1) + 7];
    }
  }

  lemma {:induction false} InOrderPrefix(cs: seq<Frame>, k: nat, n: nat)
    requires n <= |cs|
    ensures InOrder(cs[..n], k) == Min(n, InOrder(cs, k))
  {
    if n > 0 && LowNibble(cs[0]) == k {
      assert cs[..n][1..] == cs[1..][..n - 1];
      InOrderPrefix(cs[1..], (k + 1) % 16, n - 1);
    }
  }

  /** Why `SpellsOut` speaks of one start frame: a repeated First Frame is neither
      ignored nor harmful, and the list still first delivers `p` on its last frame. */
  lemma RestartAlsoDelivers(p: seq<byte>)
    requires 8 <= |p| <= MAX_PAYLOAD
    ensures var fs := [FirstFrame(p)] + Frames(p);
      && Delivered(Idle, fs) == [p] && Delivered(Idle, fs[..|fs| - 1]) == []
      && fs != Frames(p)
  {
    var fs, n := [FirstFrame(p)] + Frames(p), |Frames(p)| - 1;
    DataOfFrames(p);
    RoundTrip(Step(Idle, FirstFrame(p)).next, p);
    BehindRestart(p, Frames(p));
    BehindRestart(p, Frames(p)[..n]);
    assert fs[..|fs| - 1] == [FirstFrame(p)] + Frames(p)[..n];
  }

  lemma BehindRestart(p: seq<byte>, fs: seq<Frame>)
    requires 8 <= |p| <= MAX_PAYLOAD
    ensures Delivered(Idle, [FirstFrame(p)] + fs) == Delivered(Step(Idle, FirstFrame(p)).next, fs)
  {
    DataOfFrames(p);
    assert ([FirstFrame(p)] + fs)[1..] == fs;
  }
}

/** simulator/protocol/collect.py: framing of unsolicited broadcasts, and the decoder
    that docs/protocols.md prescribes for listeners. */
module Collect {
  import opened Bytes

  const PADDING: byte := 0x55
  const START: byte := 0x21
  const ESCAPE: byte := 0xC1

  /** A 16-bit DID and its value. */
  datatype Message = Message(did: nat, payload: seq<byte>)

  // ----- Segmentation --------------------------------------------------------

  function Pad(data: seq<byte>): (f: Frame)
    requires |data| <= 8
    ensures f[..|data|] == data
    ensures forall i | |data| <= i < 8 :: f[i] == PADDING
  {
    data + Repeat(PADDING, 8 - |data|)
  }

  /** The length code of a payload of `n` bytes. */
  function LengthCode(n: nat): (h: seq<byte>)
    requires 1 <= n <= 255
    ensures 1 <= |h| <= 3
  {
    if n <= 15 then [0xB0 + n]
    else if n == 0xB5 || n == 0xC1 then [0xB0, ESCAPE, n]
    else [0xB0, n]
  }

  /** The payload bytes that the first frame has room for. */
  function FirstCount(n: nat): nat
    requires 1 <= n <= 255
  {
    5 - |LengthCode(n)|
  }

  /** The payload bytes in the first `i` continuation frames and the first frame end here. */
  function Cut(n: nat, i: nat): nat
    requires 1 <= n <= 255
  {
    FirstCount(n) + 7 * i
  }

  function ContinuationCount(n: nat): nat
    requires 1 <= n <= 255
  {
    if n <= FirstCount(n) then 0 else (n - FirstCount(n) + 6) / 7
  }

  function FirstFrame(did: int, p: seq<byte>): Frame
    requires 1 <= |p| <= 255
  {
    Pad([START, did % 256, (did / 256) % 256] + LengthCode(|p|) + Slice(p, 0, FirstCount(|p|)))
  }

  /** The counter of the continuation frame number `i` (from 0): 0x22, ..., 0x2F, 0x20, ... */
  function Counter(i: nat): byte { 0x20 + (2 + i) % 16 }

  function Continuation(p: seq<byte>, i: nat): Frame
    requires 1 <= |p| <= 255
  {
    Pad([Counter(i)] + Slice(p, Cut(|p|, i), Cut(|p|, i + 1)))
  }

  function Continuations(p: seq<byte>): (cs: seq<Frame>)
    requires 1 <= |p| <= 255
    ensures |cs| == ContinuationCount(|p|)
    ensures forall i | 0 <= i < |cs| :: cs[i] == Continuation(p, i)
  {
    seq(ContinuationCount(|p|), i requires 0 <= i => Continuation(p, i))
  }

  function Frames(did: int, p: seq<byte>): seq<Frame>
    requires 1 <= |p| <= 255
  {
    [FirstFrame(did, p)] + Continuations(p)
  }

  /** The empty payload raises explicitly, a length over 255 in building the header. */
  function Segment(did: int, p: seq<byte>): Result<seq<Frame>> {
    if 1 <= |p| <= 255 then Ok(Frames(did, p)) else Raised
  }

  // ----- The frames byte by byte ---------------------------------------------

  /** What stands before the payload: the DID, low byte first, and the length, in the low
      nibble up to 15 bytes, in a byte of its own above, with 0xC1 in front where that byte
      would be 0xB5 or 0xC1. */
  function Preamble(did: int, n: nat): (h: seq<byte>)
    requires 1 <= n <= 255
    ensures 3 <= |h| <= 5
  {
    [did % 256, (did / 256) % 256] +
    if n <= 15 then [0xB0 + n] else if n in {0xB5, 0xC1} then [0xB0, 0xC1, n] else [0xB0, n]
  }

  /** `fs` carry the bytes `s`, seven to a frame behind its number, and 0x55 behind them in
      the last one. */
  predicate Carry(fs: seq<Frame>, s: seq<byte>) {
    && |fs| == (|s| + 6) / 7
    && (forall i | 0 <= i < |fs| :: fs[i][0] == 0x20 + (1 + i) % 16)
    && (forall i, t | 0 <= i < |fs| && 1 <= t < 8 :: fs[i][t] == ByteOr55(s, 7 * i + t - 1))
  }

  function ByteOr55(s: seq<byte>, j: nat): byte { if j < |s| then s[j] else 0x55 }

  lemma FirstCarries(did: int, p: seq<byte>, t: nat)
    requires 1 <= |p| <= 255 && 1 <= t < 8
    ensures FirstFrame(did, p)[0] == 0x21
    ensures FirstFrame(did, p)[t] == ByteOr55(Preamble(did, |p|) + p, t - 1)
  {
    var head := [START, did % 256, (did / 256) % 256] + LengthCode(|p|);
    assert head == [0x21] + Preamble(did, |p|);
    assert FirstFrame(did, p) == Pad(head + Slice(p, 0, 8 - |head|));
    assert t < |head| ==> Preamble(did, |p|)[t - 1] == head[t];
  }

  lemma ContinuationCarries(did: int, p: seq<byte>, i: nat, t: nat)
    requires 1 <= |p| <= 255 && 1 <= i <= ContinuationCount(|p|) && 1 <= t < 8
    ensures Continuation(p, i - 1)[0] == 0x20 + (1 + i) % 16
    ensures Continuation(p, i - 1)[t] == ByteOr55(Preamble(did, |p|) + p, 7 * i + t - 1)
  {
    var k := Cut(|p|, i - 1);
    assert |Preamble(did, |p|)| == 7 - FirstCount(|p|);
    assert 7 * i + t - 1 == |Preamble(did, |p|)| + (k + t - 1);
    PaddedByte(Counter(i - 1), p, k, t);
    BehindPreamble(Preamble(did, |p|), p, k + t - 1);
  }

  lemma PaddedByte(counter: byte, p: seq<byte>, k: nat, t: nat)
    requires 1 <= t < 8
    ensures var f := Pad([counter] + Slice(p, k, k + 7));
      f[0] == counter && f[t] == ByteOr55(p, k + t - 1)
  {
    var data := Slice(p, k, k + 7);
    assert t - 1 < |data| ==> data[t - 1] == p[k + t - 1];
  }

  lemma BehindPreamble(h: seq<byte>, p: seq<byte>, j: nat)
    ensures ByteOr55(h + p, |h| + j) == ByteOr55(p, j)
  {
  }

  lemma CarriedOnce(a: seq<Frame>, b: seq<Frame>, s: seq<byte>)
    requires Carry(a, s) && Carry(b, s)
    ensures a == b
  {
    forall i | 0 <= i < |a|
      ensures a[i] == b[i]
    {
      assert forall t | 1 <= t < 8 :: a[i][t] == ByteOr55(s, 7 * i + t - 1) == b[i][t];
    }
  }

  /** Segmentation lays out preamble and payload byte by byte, and raises on an empty and
      on a too long payload. */
  lemma FrameBytes(did: int, p: seq<byte>, fs: seq<Frame>)
    ensures Segment(did, p) == Ok(fs) <==> 1 <= |p| <= 255 && Carry(fs, Preamble(did, |p|) + p)
  {
    if 1 <= |p| <= 255 {
      FramesCarry(did, p);
      if Carry(fs, Preamble(did, |p|) + p) {
        CarriedOnce(fs, Frames(did, p), Preamble(did, |p|) + p);
      }
    }
  }

  lemma FramesCarry(did: int, p: seq<byte>)
    requires 1 <= |p| <= 255
    ensures Carry(Frames(did, p), Preamble(did, |p|) + p)
  {
    var fs, s := Frames(did, p), Preamble(did, |p|) + p;
    forall i, t | 0 <= i < |fs| && 1 <= t < 8
      ensures fs[i][t] == ByteOr55(s, 7 * i + t - 1)
    {
      FrameCarries(did, p, i, t);
    }
    forall i | 0 <= i < |fs|
      ensures fs[i][0] == 0x20 + (1 + i) % 16
    {
      FrameCarries(did, p, i, 1);
    }
    CarriedCount(did, p);
  }

  lemma CarriedCount(did: int, p: seq<byte>)
    requires 1 <= |p| <= 255
    ensures |Frames(did, p)| == (|Preamble(did, |p|) + p| + 6) / 7
  {
    assert |Preamble(did, |p|)| == 7 - FirstCount(|p|);
  }

  lemma FrameCarries(did: int, p: seq<byte>, i: nat, t: nat)
    requires 1 <= |p| <= 255 && i < |Frames(did, p)| && 1 <= t < 8
    ensures Frames(did, p)[i][0] == 0x20 + (1 + i) % 16
    ensures Frames(did, p)[i][t] == ByteOr55(Preamble(did, |p|) + p, 7 * i + t - 1)
  {
    if i == 0 {
      FirstCarries(did, p, t);
    } else {
      FrameAt(did, p, i);
      ContinuationCarries(did, p, i, t);
    }
  }

  lemma FrameAt(did: int, p: seq<byte>, i: nat)
    requires 1 <= |p| <= 255 && 1 <= i <= ContinuationCount(|p|)
    ensures |Frames(did, p)| == 1 + ContinuationCount(|p|) && Frames(did, p)[i] == Continuation(p, i - 1)
  {
    assert Frames(did, p)[i] == Continuations(p)[i - 1];
  }

  /** The length in the first frame: byte 3 is 0xB0 and counts up to 15 bytes; above that
      byte 4 is 0xC1 if and only if the length is 0xB5 or 0xC1, and never 0xB5. */
  lemma LengthBytes(did: int, p: seq<byte>, fs: seq<Frame>)
    requires Segment(did, p) == Ok(fs)
    ensures fs != [] && 1 <= |p| <= 255
    ensures fs[0][..3] == [0x21, did % 256, (did / 256) % 256]
    ensures fs[0][3] == if |p| <= 15 then 0xB0 + |p| else 0xB0
    ensures |p| > 15 ==> (fs[0][4] == 0xC1 <==> |p| in {0xB5, 0xC1})
    ensures |p| > 15 ==> fs[0][4] != 0xB5 && |p| == if fs[0][4] == 0xC1 then fs[0][5] else fs[0][4]
  {
    FrameBytes(did, p, fs);
    var s := Preamble(did, |p|) + p;
    forall t | 1 <= t < 8
      ensures fs[0][t] == ByteOr55(s, t - 1)
    {
      assert fs[0][t] == ByteOr55(s, 7 * 0 + t - 1);
    }
  }

  function NextCounter(c: byte): byte {
    if c < 0x2F then c + 1 else 0x20
  }

  ghost function Rest(p: seq<byte>, i: nat): seq<byte>
    requires 1 <= |p| <= 255
  {
    p[Min(Cut(|p|, i), |p|)..]
  }

  /** The counter in front of continuation frame `i`. */
  ghost function CounterBefore(i: nat): byte { if i == 0 then START else Counter(i - 1) }

  lemma RestEmpty(p: seq<byte>, i: nat)
    requires 1 <= |p| <= 255
    ensures Rest(p, i) == [] <==> i >= ContinuationCount(|p|)
  {
  }

  lemma CounterStep(i: nat)
    ensures NextCounter(CounterBefore(i)) == Counter(i) == CounterBefore(i + 1)
  {
  }

  /** One chunk off what is left. */
  lemma CutChunk(p: seq<byte>, i: nat)
    requires 1 <= |p| <= 255
    ensures Slice(Rest(p, i), 0, 7) == Slice(p, Cut(|p|, i), Cut(|p|, i + 1))
    ensures Rest(p, i)[|Slice(Rest(p, i), 0, 7)|..] == Rest(p, i + 1)
  {
    CutOff(p, Cut(|p|, i), 7);
  }

  lemma CutOne(p: seq<byte>, i: nat)
    requires 1 <= |p| <= 255
    ensures NextCounter(CounterBefore(i)) == CounterBefore(i + 1)
    ensures Pad([NextCounter(CounterBefore(i))] + Slice(Rest(p, i), 0, 7)) == Continuation(p, i)
    ensures Rest(p, i)[|Slice(Rest(p, i), 0, 7)|..] == Rest(p, i + 1)
  {
    CounterStep(i);
    CutChunk(p, i);
  }

  /** `segment_collect`: the loop with its wrapping counter. */
  method SegmentCollect(did: int, payload: seq<byte>) returns (r: Result<seq<Frame>>)
    ensures r == Segment(did, payload)
    ensures r.Ok? <==> 1 <= |payload| <= 255
    ensures r.Ok? ==> Carry(r.value, Preamble(did, |payload|) + payload)
  {
    var length := |payload|;
    if length == 0 || length > 255 {
      return Raised;
    }
    var header: seq<byte>;
    var first: nat;
    if length <= 15 {
      header, first := [0xB0 + length], 4;
    } else if length == 0xB5 || length == 0xC1 {
      header, first := [0xB0, 0xC1, length], 2;
    } else {
      header, first := [0xB0, length], 3;
    }
    var frames := [Pad([0x21, did % 256, (did / 256) % 256] + header + Slice(payload, 0, first))];
    var rest := CutContinuations(payload, first);
    FrameBytes(did, payload, frames + rest);
    return Ok(frames + rest);
  }

  method CutContinuations(payload: seq<byte>, first: nat) returns (frames: seq<Frame>)
    requires 1 <= |payload| <= 255 && first == FirstCount(|payload|)
    ensures frames == Continuations(payload)
  {
    frames := [];
    var remaining := payload[Min(first, |payload|)..];
    var c := START;
    ghost var all := Continuations(payload);
    RestEmpty(payload, 0);
    while remaining != []
      invariant |frames| <= |all| && frames == all[..|frames|] && (remaining == [] ==> |frames| == |all|)
      invariant remaining == Rest(payload, |frames|) && c == CounterBefore(|frames|)
      decreases |all| - |frames|
    {
      CutOne(payload, |frames|);
      RestEmpty(payload, |frames|);
      RestEmpty(payload, |frames| + 1);
      c := NextCounter(c);
      var chunk := Slice(remaining, 0, 7);
      var frame := Pad([c] + chunk);
      TakeOne(all, |frames|);
      remaining := remaining[|chunk|..];
      frames := frames + [frame];
    }
  }

  // ----- The documented decoder ----------------------------------------------

  datatype Decoder =
    | Listening
    | Gathering(did: nat, length: nat, data: seq<byte>, expected: byte)

  datatype Decoded = Decoded(next: Decoder, message: Option<Message>)

  /** Where the length code ends and what length it gives. */
  function ReadLength(f: Frame): (nat, nat) {
    if f[3] % 16 != 0 then (f[3] % 16, 4)
    else if f[4] != ESCAPE then (f[4], 5)
    else (f[5], 6)
  }

  function Enough(did: nat, length: nat, data: seq<byte>, expected: byte): Decoded {
    if |data| >= length then Decoded(Listening, Some(Message(did, data[..length])))
    else Decoded(Gathering(did, length, data, expected), None)
  }

  function Start(f: Frame): Decoded {
    if f[0] != START then Decoded(Listening, None)
    else
      var lo: nat := f[1];
      var hi: nat := f[2];
      var (length, at) := ReadLength(f);
      Enough(lo + 256 * hi, length, f[at..], 0x22)
  }

  /** A frame out of sequence discards the message and is looked at as a start. */
  function Decode1(d: Decoder, f: Frame): Decoded {
    match d
    case Listening => Start(f)
    case Gathering(did, length, data, expected) =>
      if f[0] != expected then Start(f)
      else Enough(did, length, data + f[1..], NextCounter(expected))
  }

  function DecoderAfter(d: Decoder, fs: seq<Frame>): Decoder
    decreases |fs|
  {
    if fs == [] then d else DecoderAfter(Decode1(d, fs[0]).next, fs[1..])
  }

  function Decode(d: Decoder, fs: seq<Frame>): seq<Message>
    decreases |fs|
  {
    if fs == [] then []
    else ToSeq(Decode1(d, fs[0]).message) + Decode(Decode1(d, fs[0]).next, fs[1..])
  }

  lemma {:induction false} DecodeConcat(d: Decoder, a: seq<Frame>, b: seq<Frame>)
    ensures DecoderAfter(d, a + b) == DecoderAfter(DecoderAfter(d, a), b)
    ensures Decode(d, a + b) == Decode(d, a) + Decode(DecoderAfter(d, a), b)
    decreases |a|
  {
    if a == [] {
      assert a + b == b;
    } else {
      var r := Decode1(d, a[0]);
      ConcatTail(a, b);
      DecodeConcat(r.next, a[1..], b);
      Regroup(ToSeq(r.message), Decode(r.next, a[1..]), Decode(DecoderAfter(d, a), b));
    }
  }

  // ----- Round trip ----------------------------------------------------------

  /** The decoder in the middle of a message, before continuation frame `i`. */
  function Midway(did: nat, p: seq<byte>, i: nat): Decoder
    requires 1 <= |p| <= 255 && Cut(|p|, i) <= |p|
  {
    Gathering(did, |p|, p[..Cut(|p|, i)], Counter(i))
  }

  /** A padded frame taken apart again. */
  lemma PadSplit(head: seq<byte>, data: seq<byte>)
    requires |head| + |data| <= 8
    ensures Pad(head + data)[..|head|] == head
    ensures Pad(head + data)[|head|..] == data + Repeat(PADDING, 8 - |head| - |data|)
  {
  }

  lemma FirstHeader(did: int, p: seq<byte>)
    requires 1 <= |p| <= 255
    ensures var f, n := FirstFrame(did, p), FirstCount(|p|);
      && f[0] == START && f[1] == did % 256 && f[2] == (did / 256) % 256
      && ReadLength(f) == (|p|, 8 - n)
      && f[8 - n..] == Slice(p, 0, n) + Repeat(PADDING, n - |Slice(p, 0, n)|)
  {
    var head := [START, did % 256, (did / 256) % 256] + LengthCode(|p|);
    PadSplit(head, Slice(p, 0, FirstCount(|p|)));
    var f := FirstFrame(did, p);
    assert forall i | 0 <= i < |head| :: f[i] == f[..|head|][i];
  }

  lemma FirstDecodes(did: int, p: seq<byte>)
    requires 1 <= |p| <= 255
    ensures Decode1(Listening, FirstFrame(did, p)) ==
      if ContinuationCount(|p|) == 0 then Decoded(Listening, Some(Message(did % 0x10000, p)))
      else Decoded(Midway(did % 0x10000, p, 0), None)
  {
    var f, n := FirstFrame(did, p), FirstCount(|p|);
    FirstHeader(did, p);
    var lo: nat := f[1];
    var hi: nat := f[2];
    assert lo + 256 * hi == did % 0x10000;
    if |p| <= n {
      assert f[8 - n..][..|p|] == p;
    } else {
      assert f[8 - n..] == p[..n];
    }
  }

  /** The data behind continuation frame `i`. */
  lemma ContinuationData(p: seq<byte>, i: nat)
    requires 1 <= |p| <= 255 && i < ContinuationCount(|p|)
    ensures var k := Cut(|p|, i);
      && k < |p|
      && var data := p[..k] + Continuation(p, i)[1..];
         && |data| == k + 7
         && data[..Min(k + 7, |p|)] == p[..Min(k + 7, |p|)]
  {
    var k := Cut(|p|, i);
    PadSplit([Counter(i)], Slice(p, k, k + 7));
    JoinSlice(p, k, 7);
    assert Cut(|p|, i + 1) == k + 7;
  }

  /** What one continuation frame brings the data to. */
  lemma ContinuationEnds(p: seq<byte>, i: nat)
    requires 1 <= |p| <= 255 && i < ContinuationCount(|p|)
    ensures var k := Cut(|p|, i);
      var data := p[..k] + Continuation(p, i)[1..];
      if i + 1 == ContinuationCount(|p|) then k < |p| <= |data| && data[..|p|] == p
      else k < |p| && |data| == Cut(|p|, i + 1) < |p| && data == p[..Cut(|p|, i + 1)]
  {
    var k := Cut(|p|, i);
    var data := p[..k] + Continuation(p, i)[1..];
    ContinuationData(p, i);
    if i + 1 == ContinuationCount(|p|) {
      assert p[..|p|] == p;
    } else {
      assert data[..k + 7] == data;
    }
  }

  lemma ContinuationDecodes(did: nat, p: seq<byte>, i: nat)
    requires 1 <= |p| <= 255 && i < ContinuationCount(|p|)
    ensures Cut(|p|, i) < |p|
    ensures Decode1(Midway(did, p, i), Continuation(p, i)) ==
      if i + 1 == ContinuationCount(|p|) then Decoded(Listening, Some(Message(did, p)))
      else Decoded(Midway(did, p, i + 1), None)
  {
    ContinuationEnds(p, i);
    CounterStep(i + 1);
  }

  lemma DecodeFirst(d: Decoder, f: Frame, fs: seq<Frame>)
    ensures var r := Decode1(d, f);
      && Decode(d, [f] + fs) == ToSeq(r.message) + Decode(r.next, fs)
      && DecoderAfter(d, [f] + fs) == DecoderAfter(r.next, fs)
  {
    assert ([f] + fs)[1..] == fs;
  }

  /** `fs` decodes to exactly `ms` and leaves the decoder listening. */
  ghost predicate Yields(d: Decoder, fs: seq<Frame>, ms: seq<Message>) {
    Decode(d, fs) == ms && DecoderAfter(d, fs) == Listening
  }

  lemma NothingMore(cs: seq<Frame>)
    ensures cs[|cs|..] == [] && Yields(Listening, [], [])
  {
  }

  lemma {:induction false} RestDecodes(did: nat, p: seq<byte>, i: nat)
    requires 1 <= |p| <= 255 && i < ContinuationCount(|p|)
    ensures Cut(|p|, i) < |p|
    ensures Yields(Midway(did, p, i), Continuations(p)[i..], [Message(did, p)])
    decreases ContinuationCount(|p|) - i
  {
    var cs := Continuations(p);
    ContinuationDecodes(did, p, i);
    DropOne(cs, i);
    DecodeFirst(Midway(did, p, i), Continuation(p, i), cs[i + 1..]);
    if i + 1 < |cs| {
      RestDecodes(did, p, i + 1);
    } else {
      NothingMore(cs);
    }
  }

  /** The documented decoder recovers DID and payload and is ready for the next message. */
  lemma CollectRoundTrip(did: int, p: seq<byte>)
    requires 1 <= |p| <= 255
    ensures Yields(Listening, Frames(did, p), [Message(did % 0x10000, p)])
  {
    var cs := Continuations(p);
    FirstDecodes(did, p);
    DecodeFirst(Listening, FirstFrame(did, p), cs);
    if cs != [] {
      assert cs[0..] == cs;
      RestDecodes(did % 0x10000, p, 0);
    }
  }

  /** A message behind others. */
  lemma YieldsMore(fs: seq<Frame>, ms: seq<Message>, more: seq<Frame>, tail: seq<Message>)
    requires Yields(Listening, fs, ms) && Yields(Listening, more, tail)
    ensures Yields(Listening, fs + more, ms + tail)
  {
    DecodeConcat(Listening, fs, more);
  }

  type Sendable = m: Message | m.did < 0x10000 && 1 <= |m.payload| <= 255 witness Message(0, [0])

  function StreamOf(ms: seq<Sendable>): seq<Frame> {
    if ms == [] then [] else StreamOf(ms[..|ms| - 1]) + Frames(ms[|ms| - 1].did, ms[|ms| - 1].payload)
  }

  /** Only the low 16 bits of a DID are sent. */
  lemma SixteenBits(did: int, p: seq<byte>)
    requires 1 <= |p| <= 255
    ensures Frames(did, p) == Frames(did % 0x10000, p)
  {
    assert (did % 0x10000) % 256 == did % 256;
    assert ((did % 0x10000) / 256) % 256 == (did / 256) % 256;
  }

  lemma StreamOne(m: Sendable)
    ensures StreamOf([m]) == Frames(m.did, m.payload)
  {
    assert [m][..0] == [];
  }

  lemma {:induction false} StreamMore(a: seq<Sendable>, b: seq<Sendable>)
    ensures StreamOf(a + b) == StreamOf(a) + StreamOf(b)
  {
    if b == [] {
      assert a + b == a;
    } else {
      var init, m := b[..|b| - 1], b[|b| - 1];
      ConcatInit(a, b);
      StreamMore(a, init);
      Regroup(StreamOf(a), StreamOf(init), Frames(m.did, m.payload));
    }
  }

  lemma YieldsOneMore(fs: seq<Frame>, ms: seq<Message>, m: Sendable)
    requires Yields(Listening, fs, ms)
    ensures Yields(Listening, fs + Frames(m.did, m.payload), ms + [m])
  {
    CollectRoundTrip(m.did, m.payload);
    YieldsMore(fs, ms, Frames(m.did, m.payload), [m]);
  }

  /** Messages delimit themselves: although continuation frames carry 0x21 again after
      a wrap, a concatenation decodes to exactly the messages it was made of. */
  lemma {:induction false} SelfDelimiting(ms: seq<Sendable>)
    ensures Yields(Listening, StreamOf(ms), ms)
  {
    if ms != [] {
      var init, m := ms[..|ms| - 1], ms[|ms| - 1];
      SelfDelimiting(init);
      YieldsOneMore(StreamOf(init), init, m);
      LastApart(ms);
    }
  }
}

/** What a listener decodes when Collect frames are lost on the bus. */
module CollectLoss {
  import opened Bytes
  import opened Collect

  // ----- Any frames behind a first frame -------------------------------------

  /** The data bytes of a list of frames. */
  function Bodies(cs: seq<Frame>): (b: seq<byte>)
    ensures |b| == 7 * |cs|
  {
    if cs == [] then [] else cs[0][1..] + Bodies(cs[1..])
  }

  /** How many frames at the front of `cs` carry the counters of the continuation frames
      i, i + 1, ... */
  function InSequence(cs: seq<Frame>, i: nat): (n: nat)
    ensures n <= |cs|
  {
    if cs == [] || cs[0][0] != Counter(i) then 0 else 1 + InSequence(cs[1..], i + 1)
  }

  /** How many frames a message is short of. */
  function Missing(length: nat, have: nat): (m: nat)
    requires have < length
    ensures m >= 1 && have + 7 * (m - 1) < length <= have + 7 * m
    decreases length - have
  {
    if have + 7 >= length then 1 else 1 + Missing(length, have + 7)
  }

  /** What a list of frames comes to in `d`, when `n` of them are in sequence and `m` are
      missing: completed by the m-th, discarded by one out of sequence, or still open. The
      listener goes on with the frames behind. */
  ghost predicate Comes(d: Decoder, cs: seq<Frame>, n: nat, m: nat, whole: Message, open: Decoder)
    requires n <= |cs|
  {
    if n >= m then
      Decode(d, cs) == [whole] + Decode(Listening, cs[m..]) && DecoderAfter(d, cs) == DecoderAfter(Listening, cs[m..])
    else if n < |cs| then
      Decode(d, cs) == Decode(Listening, cs[n..]) && DecoderAfter(d, cs) == DecoderAfter(Listening, cs[n..])
    else
      Decode(d, cs) == [] && DecoderAfter(d, cs) == open
  }

  /** What any list of frames whatever does to a message that waits for continuation frame
      `i` and for `m` frames in all: it is completed if and only if enough frames follow in
      sequence, and then out of `all`, what it had and their data. */
  ghost predicate GatherLaw(d: Decoder, i: nat, m: nat, cs: seq<Frame>, all: seq<byte>)
    requires d.Gathering?
  {
    var n := InSequence(cs, i);
    Comes(d, cs, n, m, Message(d.did, all[..Min(d.length, |all|)]), Gathering(d.did, d.length, all, Counter(i + n)))
  }

  lemma NextCounterIs(i: nat)
    ensures NextCounter(Counter(i)) == Counter(i + 1)
  {
  }

  lemma {:induction false} GatherExact(did: nat, length: nat, data: seq<byte>, i: nat, cs: seq<Frame>,
                                       m: nat, all: seq<byte>)
    requires |data| < length && m == Missing(length, |data|) && all == data + Bodies(cs)
    ensures GatherLaw(Gathering(did, length, data, Counter(i)), i, m, cs, all)
    decreases |cs|
  {
    if cs == [] {
      assert all == data;
    } else if cs[0][0] != Counter(i) {
      Discarded(did, length, data, Counter(i), cs);
    } else if m == 1 {
      GatherLast(did, length, data, i, cs, all);
    } else {
      BodiesCons(data, cs);
      GatherExact(did, length, data + cs[0][1..], i + 1, cs[1..], m - 1, all);
      GatherOne(did, length, data, i, cs, m, all);
    }
  }

  /** A frame out of sequence is looked at as if nothing had been gathered. */
  lemma Discarded(did: nat, length: nat, data: seq<byte>, c: byte, cs: seq<Frame>)
    requires cs != [] && cs[0][0] != c
    ensures Decode(Gathering(did, length, data, c), cs) == Decode(Listening, cs)
    ensures DecoderAfter(Gathering(did, length, data, c), cs) == DecoderAfter(Listening, cs)
  {
  }

  lemma GatherLast(did: nat, length: nat, data: seq<byte>, i: nat, cs: seq<Frame>, all: seq<byte>)
    requires |data| < length <= |data| + 7 && cs != [] && cs[0][0] == Counter(i)
    requires all == data + Bodies(cs)
    ensures GatherLaw(Gathering(did, length, data, Counter(i)), i, 1, cs, all)
  {
    BodiesCons(data, cs);
    CutInFront(data + cs[0][1..], Bodies(cs[1..]), length);
  }

  lemma CutInFront<T>(a: seq<T>, b: seq<T>, n: nat)
    requires n <= |a|
    ensures (a + b)[..n] == a[..n]
  {
  }

  lemma GatherOne(did: nat, length: nat, data: seq<byte>, i: nat, cs: seq<Frame>, m: nat, all: seq<byte>)
    requires |data| + 7 < length && cs != [] && cs[0][0] == Counter(i) && m >= 2
    requires GatherLaw(Gathering(did, length, data + cs[0][1..], Counter(i + 1)), i + 1, m - 1, cs[1..], all)
    ensures GatherLaw(Gathering(did, length, data, Counter(i)), i, m, cs, all)
  {
    var n := InSequence(cs, i);
    GatherStep(did, length, data, i, cs);
    ComesLater(Gathering(did, length, data, Counter(i)), Gathering(did, length, data + cs[0][1..], Counter(i + 1)),
               cs, n, m, Message(did, all[..Min(length, |all|)]), Gathering(did, length, all, Counter(i + n)));
  }

  lemma ComesLater(d: Decoder, d': Decoder, cs: seq<Frame>, n: nat, m: nat, whole: Message, open: Decoder)
    requires 1 <= n <= |cs| && 2 <= m && Comes(d', cs[1..], n - 1, m - 1, whole, open)
    requires Decode(d, cs) == Decode(d', cs[1..]) && DecoderAfter(d, cs) == DecoderAfter(d', cs[1..])
    ensures Comes(d, cs, n, m, whole, open)
  {
    if n >= m {
      DropAgain(cs, m);
    } else if n < |cs| {
      DropAgain(cs, n);
    }
  }

  lemma DropAgain<T>(s: seq<T>, n: nat)
    requires 1 <= n
    ensures n <= |s| ==> s[1..][n - 1..] == s[n..]
  {
  }

  lemma BodiesCons(data: seq<byte>, cs: seq<Frame>)
    requires cs != []
    ensures (data + cs[0][1..]) + Bodies(cs[1..]) == data + Bodies(cs)
  {
  }

  lemma GatherStep(did: nat, length: nat, data: seq<byte>, i: nat, cs: seq<Frame>)
    requires |data| + 7 < length && cs != [] && cs[0][0] == Counter(i)
    ensures var d := Gathering(did, length, data, Counter(i));
      var d' := Gathering(did, length, data + cs[0][1..], Counter(i + 1));
      Decode(d, cs) == Decode(d', cs[1..]) && DecoderAfter(d, cs) == DecoderAfter(d', cs[1..])
  {
    NextCounterIs(i);
  }

  // ----- Continuation frames of any messages ---------------------------------

  /** A continuation frame by the payload it was cut from and its number there. */
  datatype Piece = Piece(owner: seq<byte>, index: nat) {
    predicate Legal() { 1 <= |owner| <= 255 && index < 15 }
  }

  type LegalPiece = c: Piece | c.Legal() witness Piece([0], 0)

  function CfsOf(ps: seq<LegalPiece>): (cs: seq<Frame>)
    ensures |cs| == |ps|
    ensures forall j | 0 <= j < |ps| :: cs[j] == Continuation(ps[j].owner, ps[j].index)
  {
    seq(|ps|, j requires 0 <= j < |ps| => Continuation(ps[j].owner, ps[j].index))
  }

  /** Enough frames, and every needed one is the one that is due. */
  predicate InPlace(ps: seq<LegalPiece>, i: nat, m: nat) {
    |ps| >= m && forall j | 0 <= j < m :: ps[j].index == i + j
  }

  /** `data` continued with the data of the pieces up to `length` bytes. */
  function Filled(data: seq<byte>, length: nat, ps: seq<LegalPiece>): (q: seq<byte>)
    requires length <= |data| + 7 * |ps|
    ensures |q| == length
  {
    (data + Bodies(CfsOf(ps)))[..length]
  }

  /** Up to 15 continuation frames all have different counters and none is 0x21. */
  lemma CountersDiffer(i: nat, j: nat)
    requires i < 15 && j < 15
    ensures Counter(i) != START && (Counter(i) == Counter(j) ==> i == j)
  {
  }

  predicate NoStart(cs: seq<Frame>) {
    forall j | 0 <= j < |cs| :: cs[j][0] != START
  }

  lemma PiecesAreNoStart(ps: seq<LegalPiece>)
    ensures NoStart(CfsOf(ps))
  {
    forall j | 0 <= j < |ps|
      ensures CfsOf(ps)[j][0] != START
    {
      CountersDiffer(ps[j].index, ps[j].index);
    }
  }

  lemma {:induction false} ListeningIgnores(cs: seq<Frame>)
    requires NoStart(cs)
    ensures Yields(Listening, cs, [])
    decreases |cs|
  {
    if cs != [] {
      assert NoStart(cs[1..]);
      ListeningIgnores(cs[1..]);
    }
  }

  lemma {:induction false} InSequenceAt(cs: seq<Frame>, i: nat, j: nat)
    requires j < InSequence(cs, i)
    ensures cs[j][0] == Counter(i + j)
  {
    if j > 0 {
      InSequenceAt(cs[1..], i + 1, j - 1);
    }
  }

  lemma {:induction false} InSequenceAll(cs: seq<Frame>, i: nat, m: nat)
    requires m <= |cs| && forall j | 0 <= j < m :: cs[j][0] == Counter(i + j)
    ensures InSequence(cs, i) >= m
    decreases m
  {
    if m > 0 {
      forall j | 0 <= j < m - 1
        ensures cs[1..][j][0] == Counter(i + 1 + j)
      {
        assert cs[1..][j] == cs[j + 1];
      }
      assert cs[0][0] == Counter(i + 0);
      InSequenceAll(cs[1..], i + 1, m - 1);
    }
  }

  lemma PieceCounter(ps: seq<LegalPiece>, j: nat, i: nat)
    requires j < |ps| && i < 15
    ensures CfsOf(ps)[j][0] == Counter(i) <==> ps[j].index == i
  {
    CountersDiffer(ps[j].index, i);
  }

  lemma InPlaceIsInSequence(ps: seq<LegalPiece>, i: nat, m: nat)
    requires i + m <= 15
    ensures InSequence(CfsOf(ps), i) >= m <==> InPlace(ps, i, m)
  {
    var cs := CfsOf(ps);
    if InSequence(cs, i) >= m {
      forall j | 0 <= j < m
        ensures ps[j].index == i + j
      {
        InSequenceAt(cs, i, j);
        PieceCounter(ps, j, i + j);
      }
    }
    if InPlace(ps, i, m) {
      forall j | 0 <= j < m
        ensures cs[j][0] == Counter(i + j)
      {
        PieceCounter(ps, j, i + j);
      }
      InSequenceAll(cs, i, m);
    }
  }

  // ----- The exact law -------------------------------------------------------

  /** A listener that is in no message, or in one of at most 15 continuation frames. */
  ghost predicate Brief(d: Decoder) {
    d.Gathering? ==> |d.data| < d.length && exists i | 0 <= i < 15 :: WaitsFor(d, i)
  }

  predicate WaitsFor(d: Decoder, i: nat)
    requires d.Gathering? && |d.data| < d.length
  {
    d.expected == Counter(i) && i + Missing(d.length, |d.data|) <= 15
  }

  /** Continuation frames of any messages on a message that waits for its frame `i`: it is
      completed if and only if enough arrive and every needed one is at its place, and its
      data are then made of their bytes. */
  lemma PiecesExact(d: Decoder, i: nat, ps: seq<LegalPiece>)
    requires d.Gathering? && |d.data| < d.length && WaitsFor(d, i)
    ensures var m := Missing(d.length, |d.data|);
      Decode(d, CfsOf(ps)) == if InPlace(ps, i, m) then [Message(d.did, Filled(d.data, d.length, ps))] else []
    ensures Brief(DecoderAfter(d, CfsOf(ps)))
  {
    PiecesDecode(d, i, ps, Missing(d.length, |d.data|));
    PiecesStayBrief(d, i, ps);
  }

  lemma PiecesDecode(d: Decoder, i: nat, ps: seq<LegalPiece>, m: nat)
    requires d.Gathering? && |d.data| < d.length && d.expected == Counter(i)
    requires m == Missing(d.length, |d.data|) && i + m <= 15
    ensures Decode(d, CfsOf(ps)) == if InPlace(ps, i, m) then [Message(d.did, Filled(d.data, d.length, ps))] else []
  {
    PiecesCome(d, i, ps, CfsOf(ps), m);
    InPlaceIsInSequence(ps, i, m);
  }

  lemma PiecesStayBrief(d: Decoder, i: nat, ps: seq<LegalPiece>)
    requires d.Gathering? && |d.data| < d.length && WaitsFor(d, i)
    ensures Brief(DecoderAfter(d, CfsOf(ps)))
  {
    var cs, m := CfsOf(ps), Missing(d.length, |d.data|);
    PiecesCome(d, i, ps, cs, m);
    if InSequence(cs, i) == |cs| < m {
      StillWaits(d, i, cs);
    }
  }

  lemma PiecesCome(d: Decoder, i: nat, ps: seq<LegalPiece>, cs: seq<Frame>, m: nat)
    requires d.Gathering? && |d.data| < d.length && d.expected == Counter(i)
    requires cs == CfsOf(ps) && m == Missing(d.length, |d.data|)
    ensures var n, all := InSequence(cs, i), d.data + Bodies(cs);
      && Decode(d, cs) == (if n >= m then [Message(d.did, all[..Min(d.length, |all|)])] else [])
      && DecoderAfter(d, cs)
           == if n >= m || n < |cs| then Listening else Gathering(d.did, d.length, all, Counter(i + |cs|))
  {
    var n, all := InSequence(cs, i), d.data + Bodies(cs);
    GatherExact(d.did, d.length, d.data, i, cs, m, all);
    PiecesAreNoStart(ps);
    ComesToEnd(d, cs, n, m, Message(d.did, all[..Min(d.length, |all|)]),
               Gathering(d.did, d.length, all, Counter(i + n)));
  }

  /** With no first frame among them, the frames behind come to nothing. */
  lemma ComesToEnd(d: Decoder, cs: seq<Frame>, n: nat, m: nat, whole: Message, open: Decoder)
    requires n <= |cs| && Comes(d, cs, n, m, whole, open) && NoStart(cs)
    ensures Decode(d, cs) == if n >= m then [whole] else []
    ensures DecoderAfter(d, cs) == if n >= m || n < |cs| then Listening else open
  {
    if n >= m {
      RestIgnored(cs, m);
    } else if n < |cs| {
      RestIgnored(cs, n);
    }
  }

  lemma RestIgnored(cs: seq<Frame>, n: nat)
    requires NoStart(cs) && n <= |cs|
    ensures Decode(Listening, cs[n..]) == [] && DecoderAfter(Listening, cs[n..]) == Listening
  {
    assert NoStart(cs[n..]);
    ListeningIgnores(cs[n..]);
  }

  lemma StillWaits(d: Decoder, i: nat, cs: seq<Frame>)
    requires d.Gathering? && |d.data| < d.length && WaitsFor(d, i)
    requires |cs| < Missing(d.length, |d.data|)
    ensures Brief(Gathering(d.did, d.length, d.data + Bodies(cs), Counter(i + |cs|)))
  {
    var d' := Gathering(d.did, d.length, d.data + Bodies(cs), Counter(i + |cs|));
    assert WaitsFor(d', i + |cs|);
  }

  predicate Short(p: seq<byte>) { 1 <= |p| <= 255 && ContinuationCount(|p|) <= 15 }

  lemma BriefHasNoStart(d: Decoder)
    requires Brief(d) && d.Gathering?
    ensures d.expected != START
  {
    var i :| 0 <= i < 15 && WaitsFor(d, i);
    CountersDiffer(i, i);
  }

  /** The front of a payload that its first frame carries. */
  function Head(p: seq<byte>): seq<byte>
    requires 1 <= |p| <= 255
  {
    Slice(p, 0, FirstCount(|p|))
  }

  /** A first frame forgets what was being gathered. */
  lemma FirstRestarts(d: Decoder, did: int, p: seq<byte>)
    requires Brief(d) && Short(p)
    ensures Decode1(d, FirstFrame(did, p)) ==
      if ContinuationCount(|p|) == 0 then Decoded(Listening, Some(Message(did % 0x10000, p)))
      else Decoded(Gathering(did % 0x10000, |p|, Head(p), Counter(0)), None)
  {
    FirstHeader(did, p);
    FirstDecodes(did, p);
    if d.Gathering? {
      BriefHasNoStart(d);
    }
  }

  lemma FirstWaits(did: nat, p: seq<byte>)
    requires Short(p) && ContinuationCount(|p|) > 0
    ensures var d := Gathering(did, |p|, Head(p), Counter(0));
      |Head(p)| < |p| && WaitsFor(d, 0) && Missing(|p|, |Head(p)|) == ContinuationCount(|p|)
  {
  }

  /** What a first frame and the continuation frames behind it deliver. */
  function Mixture(did: int, p: seq<byte>, ps: seq<LegalPiece>): seq<Message>
    requires 1 <= |p| <= 255
  {
    if InPlace(ps, 0, ContinuationCount(|p|)) then [Message(did % 0x10000, Filled(Head(p), |p|, ps))] else []
  }

  /** The exact law of everything that loss, duplication and reordering can leave behind
      the first frame of a message of up to 15 continuation frames: it is completed if and
      only if every needed frame is at its place, from whatever message it comes. */
  lemma MixtureExact(d: Decoder, did: int, p: seq<byte>, ps: seq<LegalPiece>)
    requires Brief(d) && Short(p)
    ensures Decode(d, [FirstFrame(did, p)] + CfsOf(ps)) == Mixture(did, p, ps)
    ensures Brief(DecoderAfter(d, [FirstFrame(did, p)] + CfsOf(ps)))
  {
    FirstRestarts(d, did, p);
    DecodeFirst(d, FirstFrame(did, p), CfsOf(ps));
    if ContinuationCount(|p|) == 0 {
      PiecesAreNoStart(ps);
      ListeningIgnores(CfsOf(ps));
      assert Filled(Head(p), |p|, ps) == p;
    } else {
      FirstWaits(did % 0x10000, p);
      PiecesExact(Gathering(did % 0x10000, |p|, Head(p), Counter(0)), 0, ps);
    }
  }

  // ----- Streams that lose any frames ----------------------------------------

  type Brevity = m: Sendable | Short(m.payload) witness Message(0, [0])

  /** A first frame that arrives, and all continuation frames that arrive before the next
      one, whatever messages they belong to. */
  datatype Heard = Heard(message: Brevity, pieces: seq<LegalPiece>)

  function HeardFrames(h: Heard): seq<Frame> {
    [FirstFrame(h.message.did, h.message.payload)] + CfsOf(h.pieces)
  }

  function HeardStream(hs: seq<Heard>): seq<Frame> {
    if hs == [] then [] else HeardFrames(hs[0]) + HeardStream(hs[1..])
  }

  function HeardOutcomes(hs: seq<Heard>): seq<Message> {
    if hs == [] then []
    else Mixture(hs[0].message.did, hs[0].message.payload, hs[0].pieces) + HeardOutcomes(hs[1..])
  }

  lemma {:induction false} HeardAll(d: Decoder, hs: seq<Heard>)
    requires Brief(d)
    ensures Decode(d, HeardStream(hs)) == HeardOutcomes(hs)
    decreases |hs|
  {
    if hs != [] {
      var m := hs[0].message;
      MixtureExact(d, m.did, m.payload, hs[0].pieces);
      DecodeConcat(d, HeardFrames(hs[0]), HeardStream(hs[1..]));
      HeardAll(DecoderAfter(d, HeardFrames(hs[0])), hs[1..]);
    }
  }

  /** What continuation frames make of the message open in `d`, waiting for its frame `i`. */
  predicate CompletedBy(d: Decoder, i: nat, lead: seq<LegalPiece>)
    requires d.Gathering? && |d.data| < d.length
  {
    var m := Missing(d.length, |d.data|);
    Decode(d, CfsOf(lead)) == if InPlace(lead, i, m) then [Message(d.did, Filled(d.data, d.length, lead))] else []
  }

  /** What continuation frames that come before any first frame make of the message that
      is open when they come, if one is. */
  ghost predicate LeadLaw(d: Decoder, lead: seq<LegalPiece>) {
    if d.Listening? then Decode(d, CfsOf(lead)) == []
    else |d.data| < d.length && exists i | 0 <= i < 15 :: WaitsFor(d, i) && CompletedBy(d, i, lead)
  }

  lemma LeadExact(d: Decoder, lead: seq<LegalPiece>)
    requires Brief(d)
    ensures LeadLaw(d, lead) && Brief(DecoderAfter(d, CfsOf(lead)))
  {
    if d.Listening? {
      PiecesAreNoStart(lead);
      ListeningIgnores(CfsOf(lead));
    } else {
      var i :| 0 <= i < 15 && WaitsFor(d, i);
      PiecesExact(d, i, lead);
    }
  }

  /** Whatever is lost of messages of up to 15 continuation frames, first frames too: first
      what the frames before the first surviving first frame complete, nothing for a
      listener that starts afresh, then of every first frame exactly its mixture. */
  lemma AnyLossExact(d: Decoder, lead: seq<LegalPiece>, hs: seq<Heard>)
    requires Brief(d)
    ensures LeadLaw(d, lead)
    ensures Decode(d, CfsOf(lead) + HeardStream(hs)) == Decode(d, CfsOf(lead)) + HeardOutcomes(hs)
  {
    LeadExact(d, lead);
    DecodeConcat(d, CfsOf(lead), HeardStream(hs));
    HeardAll(DecoderAfter(d, CfsOf(lead)), hs);
  }

  // ----- The data of a message's own frames ----------------------------------

  lemma {:induction false} BodiesSnoc(cs: seq<Frame>, f: Frame)
    ensures Bodies(cs + [f]) == Bodies(cs) + f[1..]
  {
    if cs != [] {
      assert (cs + [f])[1..] == cs[1..] + [f];
      BodiesSnoc(cs[1..], f);
    }
  }

  /** The first `k` continuation frames of `p` carry it up to the next cut. */
  lemma {:induction false} BodiesOf(p: seq<byte>, k: nat)
    requires 1 <= |p| <= 255 && k < ContinuationCount(|p|)
    ensures Cut(|p|, k) < |p| && Head(p) + Bodies(Continuations(p)[..k]) == p[..Cut(|p|, k)]
  {
    CutInside(p, k);
    if k > 0 {
      BodiesOf(p, k - 1);
      BodiesStep(p, k - 1);
    }
  }

  lemma BodiesStep(p: seq<byte>, k: nat)
    requires 1 <= |p| <= 255 && k + 1 < ContinuationCount(|p|) && Cut(|p|, k) <= |p|
    requires Head(p) + Bodies(Continuations(p)[..k]) == p[..Cut(|p|, k)]
    ensures Cut(|p|, k + 1) < |p| && Head(p) + Bodies(Continuations(p)[..k + 1]) == p[..Cut(|p|, k + 1)]
  {
    TakeOne(Continuations(p), k);
    BodiesSnoc(Continuations(p)[..k], Continuation(p, k));
    ContinuationEnds(p, k);
    Regroup(Head(p), Bodies(Continuations(p)[..k]), Continuation(p, k)[1..]);
  }

  lemma CutInside(p: seq<byte>, k: nat)
    requires 1 <= |p| <= 255 && k < ContinuationCount(|p|)
    ensures Cut(|p|, k) < |p| && (k > 0 ==> Cut(|p|, k) == Cut(|p|, k - 1) + 7)
    ensures Head(p) == p[..Cut(|p|, 0)]
  {
  }

  lemma {:induction false} BodiesConcat(a: seq<Frame>, b: seq<Frame>)
    ensures Bodies(a + b) == Bodies(a) + Bodies(b)
  {
    if a == [] {
      assert a + b == b;
    } else {
      ConcatTail(a, b);
      BodiesConcat(a[1..], b);
      Regroup(a[0][1..], Bodies(a[1..]), Bodies(b));
    }
  }

  /** The bytes that the frames of `q` carry, padding included. */
  function Padded(q: seq<byte>): (r: seq<byte>)
    requires 1 <= |q| <= 255
    ensures |r| == Cut(|q|, ContinuationCount(|q|))
    ensures forall j | 0 <= j < |r| :: r[j] == if j < |q| then q[j] else PADDING
  {
    q + Repeat(PADDING, Cut(|q|, ContinuationCount(|q|)) - |q|)
  }

  lemma LastBody(p: seq<byte>)
    requires 1 <= |p| <= 255 && ContinuationCount(|p|) > 0
    ensures var n := ContinuationCount(|p|);
      Cut(|p|, n - 1) < |p| && p[..Cut(|p|, n - 1)] + Continuation(p, n - 1)[1..] == Padded(p)
  {
    var n := ContinuationCount(|p|);
    var k := Cut(|p|, n - 1);
    LastCut(p);
    PadSplit([Counter(n - 1)], p[k..]);
    Regroup(p[..k], p[k..], Repeat(PADDING, k + 7 - |p|));
    SplitAt(p, k);
  }

  lemma LastCut(p: seq<byte>)
    requires 1 <= |p| <= 255 && ContinuationCount(|p|) > 0
    ensures var n := ContinuationCount(|p|);
      var k := Cut(|p|, n - 1);
      k < |p| <= k + 7 && Cut(|p|, n) == k + 7 && Slice(p, k, k + 7) == p[k..]
  {
  }

  /** All frames of `p` carry it and the padding behind it. */
  lemma AllBodies(p: seq<byte>)
    requires 1 <= |p| <= 255
    ensures ContinuationCount(|p|) > 0 ==> Head(p) + Bodies(Continuations(p)) == Padded(p)
    ensures ContinuationCount(|p|) == 0 ==> Head(p) == p && Bodies(Continuations(p)) == []
  {
    var cs, n := Continuations(p), ContinuationCount(|p|);
    if n > 0 {
      BodiesOf(p, n - 1);
      LastApart(cs);
      BodiesSnoc(cs[..n - 1], Continuation(p, n - 1));
      Regroup(Head(p), Bodies(cs[..n - 1]), Continuation(p, n - 1)[1..]);
      LastBody(p);
    }
  }

  lemma BodiesTail(p: seq<byte>, k: nat)
    requires 1 <= |p| <= 255 && k < ContinuationCount(|p|)
    ensures Bodies(Continuations(p)[k..]) == Padded(p)[Cut(|p|, k)..]
  {
    var cs := Continuations(p);
    AllBodies(p);
    BodiesOf(p, k);
    SplitAt(cs, k);
    BodiesConcat(cs[..k], cs[k..]);
    Regroup(Head(p), Bodies(cs[..k]), Bodies(cs[k..]));
    TailOf(p[..Cut(|p|, k)], Bodies(cs[k..]), Padded(p));
  }

  lemma TailOf<T>(a: seq<T>, b: seq<T>, whole: seq<T>)
    requires a + b == whole
    ensures b == whole[|a|..]
  {
  }

  // ----- No first frame lost -------------------------------------------------

  /** Ascending numbers from `lo` on, all below `n`. */
  predicate Ascending(ks: seq<nat>, lo: nat, n: nat) {
    ks == [] || (lo <= ks[0] < n && Ascending(ks[1..], ks[0] + 1, n))
  }

  lemma {:induction false} AscendingIs(ks: seq<nat>, lo: nat, n: nat)
    requires lo <= n && Ascending(ks, lo, n)
    ensures |ks| <= n - lo
    ensures forall j | 0 <= j < |ks| :: lo + j <= ks[j] < n
    ensures |ks| == n - lo ==> forall j | 0 <= j < |ks| :: ks[j] == lo + j
    decreases |ks|
  {
    if ks != [] {
      AscendingIs(ks[1..], ks[0] + 1, n);
      assert forall j | 1 <= j < |ks| :: ks[j] == ks[1..][j - 1];
    }
  }

  /** A message and the numbers of its continuation frames that arrive; its first frame
      arrives. */
  datatype Lossy = Lossy(message: Brevity, kept: seq<nat>) {
    function Count(): nat { ContinuationCount(|message.payload|) }

    predicate Legal() { Ascending(kept, 0, Count()) }

    function Outcome(): seq<Message> { if |kept| == Count() then [message] else [] }
  }

  type LegalLossy = l: Lossy | l.Legal() witness Lossy(Message(0, [0]), [])

  /** The continuation frames of `p` with these numbers. */
  function Kept(p: seq<byte>, ks: seq<nat>): (cs: seq<Frame>)
    requires 1 <= |p| <= 255
    ensures |cs| == |ks| && forall j | 0 <= j < |ks| :: cs[j] == Continuation(p, ks[j])
  {
    seq(|ks|, j requires 0 <= j < |ks| => Continuation(p, ks[j]))
  }

  function LossyFrames(l: LegalLossy): seq<Frame> {
    [FirstFrame(l.message.did, l.message.payload)] + Kept(l.message.payload, l.kept)
  }

  function LossyStream(ls: seq<LegalLossy>): seq<Frame> {
    if ls == [] then [] else LossyFrames(ls[0]) + LossyStream(ls[1..])
  }

  /** The messages that survive whole. */
  function Survivors(ls: seq<LegalLossy>): seq<Message> {
    if ls == [] then [] else ls[0].Outcome() + Survivors(ls[1..])
  }

  lemma OwnPieces(p: seq<byte>, ks: seq<nat>) returns (ps: seq<LegalPiece>)
    requires Short(p) && Ascending(ks, 0, ContinuationCount(|p|))
    ensures |ps| == |ks| && forall j | 0 <= j < |ks| :: ps[j] == Piece(p, ks[j])
    ensures CfsOf(ps) == Kept(p, ks)
  {
    AscendingIs(ks, 0, ContinuationCount(|p|));
    ps := seq(|ks|, j requires 0 <= j < |ks| => Piece(p, ks[j]));
  }

  lemma OwnFilled(p: seq<byte>, ps: seq<LegalPiece>)
    requires Short(p) && |ps| == ContinuationCount(|p|)
    requires forall j | 0 <= j < |ps| :: ps[j] == Piece(p, j)
    ensures |p| <= |Head(p)| + 7 * |ps| && Filled(Head(p), |p|, ps) == p
  {
    assert CfsOf(ps) == Continuations(p);
    AllBodies(p);
    assert Padded(p)[..|p|] == p;
  }

  lemma KeptMixture(p: seq<byte>, ks: seq<nat>, ps: seq<LegalPiece>, did: nat)
    requires Short(p) && |ks| <= ContinuationCount(|p|) && |ps| == |ks| && did < 0x10000
    requires forall j | 0 <= j < |ks| :: ps[j] == Piece(p, ks[j])
    requires |ks| == ContinuationCount(|p|) ==> forall j | 0 <= j < |ks| :: ks[j] == j
    ensures Mixture(did, p, ps) == if |ks| == ContinuationCount(|p|) then [Message(did, p)] else []
  {
    if |ks| == ContinuationCount(|p|) {
      OwnInPlace(p, ks, ps);
      OwnFilled(p, ps);
    }
  }

  lemma OwnInPlace(p: seq<byte>, ks: seq<nat>, ps: seq<LegalPiece>)
    requires |ps| == |ks| && forall j | 0 <= j < |ks| :: ps[j] == Piece(p, ks[j])
    requires forall j | 0 <= j < |ks| :: ks[j] == j
    ensures InPlace(ps, 0, |ks|) && forall j | 0 <= j < |ps| :: ps[j] == Piece(p, j)
  {
  }

  lemma OneLossy(d: Decoder, l: LegalLossy)
    requires Brief(d)
    ensures Decode(d, LossyFrames(l)) == l.Outcome() && Brief(DecoderAfter(d, LossyFrames(l)))
  {
    var m := l.message;
    var ps := OwnPieces(m.payload, l.kept);
    MixtureExact(d, m.did, m.payload, ps);
    AscendingIs(l.kept, 0, l.Count());
    KeptMixture(m.payload, l.kept, ps, m.did);
  }

  /** As long as every first frame arrives, losing continuation frames of messages of up to
      15 of them, whichever and how many, is safe: a listener decodes exactly the messages
      that survive whole, in order. */
  lemma {:induction false} LossyBroadcasts(d: Decoder, ls: seq<LegalLossy>)
    requires Brief(d)
    ensures Decode(d, LossyStream(ls)) == Survivors(ls)
    decreases |ls|
  {
    if ls != [] {
      OneLossy(d, ls[0]);
      DecodeConcat(d, LossyFrames(ls[0]), LossyStream(ls[1..]));
      LossyBroadcasts(DecoderAfter(d, LossyFrames(ls[0])), ls[1..]);
    }
  }

  // ----- One burst over the border of two messages ---------------------------

  /** The front of `p` up to its continuation frame `k`, continued from frame `k` of `q`. */
  function Spliced(p: seq<byte>, q: seq<byte>, k: nat): (r: seq<byte>)
    requires 1 <= |p| <= 255 && 1 <= |q| <= 255
    requires k < ContinuationCount(|p|) <= ContinuationCount(|q|)
    ensures |r| == |p|
  {
    p[..Cut(|p|, k)] + Padded(q)[Cut(|q|, k)..Cut(|q|, k) + |p| - Cut(|p|, k)]
  }

  /** Frames 0 to k - 1 of `p`, then frames l, l + 1, ... of `q`. */
  function BurstPieces(p: seq<byte>, q: seq<byte>, k: nat, l: nat): (ps: seq<LegalPiece>)
    requires Short(p) && Short(q) && k <= ContinuationCount(|p|) && l <= ContinuationCount(|q|)
    ensures |ps| == k + ContinuationCount(|q|) - l
    ensures forall j | 0 <= j < |ps| :: ps[j] == if j < k then Piece(p, j) else Piece(q, l + j - k)
  {
    seq(k + ContinuationCount(|q|) - l,
        j requires 0 <= j < k + ContinuationCount(|q|) - l => if j < k then Piece(p, j) else Piece(q, l + j - k))
  }

  lemma BurstFrames(p: seq<byte>, q: seq<byte>, k: nat, l: nat)
    requires Short(p) && Short(q) && k <= ContinuationCount(|p|) && l <= ContinuationCount(|q|)
    ensures CfsOf(BurstPieces(p, q, k, l)) == Continuations(p)[..k] + Continuations(q)[l..]
  {
    var ps := BurstPieces(p, q, k, l);
    forall j: nat | j < |ps|
      ensures CfsOf(ps)[j] == (Continuations(p)[..k] + Continuations(q)[l..])[j]
    {
      BurstFrameAt(p, q, k, l, j);
    }
  }

  lemma BurstFrameAt(p: seq<byte>, q: seq<byte>, k: nat, l: nat, j: nat)
    requires Short(p) && Short(q) && k <= ContinuationCount(|p|) && l <= ContinuationCount(|q|)
    requires j < k + ContinuationCount(|q|) - l
    ensures CfsOf(BurstPieces(p, q, k, l))[j] == (Continuations(p)[..k] + Continuations(q)[l..])[j]
  {
    var c := BurstPieces(p, q, k, l)[j];
    assert c == if j < k then Piece(p, j) else Piece(q, l + j - k);
    Glued(Continuations(p), Continuations(q), k, l, j);
  }

  lemma Glued<T>(a: seq<T>, b: seq<T>, k: nat, l: nat, j: nat)
    requires k <= |a| && l <= |b| && j < k + |b| - l
    ensures (a[..k] + b[l..])[j] == if j < k then a[j] else b[l + j - k]
  {
  }

  lemma BurstInPlace(p: seq<byte>, q: seq<byte>, k: nat, l: nat)
    requires Short(p) && Short(q) && k <= ContinuationCount(|p|) && l <= ContinuationCount(|q|)
    ensures InPlace(BurstPieces(p, q, k, l), 0, ContinuationCount(|p|))
      <==> k == ContinuationCount(|p|) || (k == l && ContinuationCount(|q|) >= ContinuationCount(|p|))
  {
    var ps, n := BurstPieces(p, q, k, l), ContinuationCount(|p|);
    if k < n && |ps| >= n {
      assert ps[k].index == l;
    }
  }

  lemma BurstFilled(p: seq<byte>, q: seq<byte>, k: nat)
    requires Short(p) && Short(q) && k < ContinuationCount(|p|) <= ContinuationCount(|q|)
    ensures |p| <= |Head(p)| + 7 * ContinuationCount(|q|)
    ensures Filled(Head(p), |p|, BurstPieces(p, q, k, k)) == Spliced(p, q, k)
  {
    var front, back := Continuations(p)[..k], Continuations(q)[k..];
    CutInside(p, k);
    CutInside(q, k);
    BurstFrames(p, q, k, k);
    BodiesConcat(front, back);
    Regroup(Head(p), Bodies(front), Bodies(back));
    BodiesOf(p, k);
    BodiesTail(q, k);
    JoinCut(p[..Cut(|p|, k)], Padded(q), Cut(|q|, k), |p| - Cut(|p|, k));
  }

  lemma JoinCut<T>(a: seq<T>, b: seq<T>, lo: nat, n: nat)
    requires lo + n <= |b|
    ensures (a + b[lo..])[..|a| + n] == a + b[lo..lo + n]
  {
  }

  /** A burst of loss takes the message `p` from its continuation frame `k` on, the first
      frame of `q` and the continuation frames of `q` before `l`. A message cut short is
      completed with bytes of the next one if and only if k and l are the same and enough
      frames follow; otherwise nothing comes of it. */
  lemma BurstExact(d: Decoder, did: nat, p: seq<byte>, q: seq<byte>, k: nat, l: nat)
    requires Brief(d) && Short(p) && Short(q) && did < 0x10000
    requires k < ContinuationCount(|p|) && l <= ContinuationCount(|q|)
    ensures Decode(d, [FirstFrame(did, p)] + (Continuations(p)[..k] + Continuations(q)[l..]))
      == if k == l && ContinuationCount(|q|) >= ContinuationCount(|p|) then [Message(did, Spliced(p, q, k))] else []
  {
    BurstFrames(p, q, k, l);
    MixtureExact(d, did, p, BurstPieces(p, q, k, l));
    BurstMixture(did, p, q, k, l);
  }

  lemma BurstMixture(did: nat, p: seq<byte>, q: seq<byte>, k: nat, l: nat)
    requires Short(p) && Short(q) && did < 0x10000 && k < ContinuationCount(|p|) && l <= ContinuationCount(|q|)
    ensures Mixture(did, p, BurstPieces(p, q, k, l))
      == if k == l && ContinuationCount(|q|) >= ContinuationCount(|p|) then [Message(did, Spliced(p, q, k))] else []
  {
    BurstInPlace(p, q, k, l);
    if k == l && ContinuationCount(|q|) >= ContinuationCount(|p|) {
      BurstFilled(p, q, k);
    }
  }

  /** So a lost first frame splices any two messages of the same length at any frame. */
  lemma LostFirstSplices(d: Decoder, did: nat, p: seq<byte>, q: seq<byte>, k: nat)
    requires Brief(d) && Short(p) && |p| == |q| && did < 0x10000 && k < ContinuationCount(|p|)
    ensures Cut(|p|, k) < |p|
    ensures Decode(d, [FirstFrame(did, p)] + (Continuations(p)[..k] + Continuations(q)[k..]))
      == [Message(did, p[..Cut(|p|, k)] + q[Cut(|p|, k)..])]
  {
    BurstExact(d, did, p, q, k, k);
    assert Padded(q)[Cut(|q|, k)..|q|] == q[Cut(|q|, k)..];
  }

  // ----- The bound is sharp --------------------------------------------------

  lemma SixteenInSequence(p: seq<byte>, f: Frame)
    requires 1 <= |p| <= 255 && ContinuationCount(|p|) == 16 && f[0] == START
    ensures InSequence(Continuations(p)[..15] + [f], 0) == 16
  {
    var cs := Continuations(p)[..15] + [f];
    forall j | 0 <= j < 16
      ensures cs[j][0] == Counter(0 + j)
    {
      assert j < 15 ==> cs[j] == Continuation(p, j);
    }
    InSequenceAll(cs, 0, 16);
  }

  /** With 16 continuation frames the loss of the last one makes the listener take the
      first frame of the next message for it, and two messages come out as one. */
  lemma SixteenSplice(did: nat, p: seq<byte>, next: Sendable)
    requires did < 0x10000 && 1 <= |p| <= 255 && ContinuationCount(|p|) == 16
    ensures var f := FirstFrame(next.did, next.payload);
      && Cut(|p|, 15) < |p| <= Cut(|p|, 15) + 7
      && Decode(Listening, [FirstFrame(did, p)] + (Continuations(p)[..15] + [f]))
           == [Message(did, (p[..Cut(|p|, 15)] + f[1..])[..|p|])]
  {
    var f := FirstFrame(next.did, next.payload);
    FirstHeader(next.did, next.payload);
    FirstDecodes(did, p);
    DecodeFirst(Listening, FirstFrame(did, p), Continuations(p)[..15] + [f]);
    CutInside(p, 0);
    TakenForLast(did, p, f);
  }

  /** Sixteen frames in sequence, the last of them no continuation frame. */
  lemma TakenForLast(did: nat, p: seq<byte>, f: Frame)
    requires 1 <= |p| <= 255 && ContinuationCount(|p|) == 16 && f[0] == START
    ensures Cut(|p|, 15) < |p| <= Cut(|p|, 15) + 7
    ensures Decode(Gathering(did, |p|, Head(p), Counter(0)), Continuations(p)[..15] + [f])
      == [Message(did, (p[..Cut(|p|, 15)] + f[1..])[..|p|])]
  {
    var cs := Continuations(p)[..15] + [f];
    SixteenInSequence(p, f);
    SixteenCome(did, p, cs);
    SixteenData(p, f);
  }

  lemma SixteenData(p: seq<byte>, f: Frame)
    requires 1 <= |p| <= 255 && ContinuationCount(|p|) == 16
    ensures Cut(|p|, 15) < |p| <= Cut(|p|, 15) + 7
    ensures Head(p) + Bodies(Continuations(p)[..15] + [f]) == p[..Cut(|p|, 15)] + f[1..]
  {
    BodiesOf(p, 15);
    BodiesSnoc(Continuations(p)[..15], f);
    Regroup(Head(p), Bodies(Continuations(p)[..15]), f[1..]);
  }

  lemma SixteenCome(did: nat, p: seq<byte>, cs: seq<Frame>)
    requires 1 <= |p| <= 255 && ContinuationCount(|p|) == 16 && |cs| == 16 == InSequence(cs, 0)
    ensures |Head(p)| < |p| <= |Head(p)| + 7 * 16
    ensures Decode(Gathering(did, |p|, Head(p), Counter(0)), cs) == [Message(did, (Head(p) + Bodies(cs))[..|p|])]
  {
    CutInside(p, 15);
    GatherExact(did, |p|, Head(p), 0, cs, Missing(|p|, |Head(p)|), Head(p) + Bodies(cs));
    assert cs[16..] == [];
  }
}

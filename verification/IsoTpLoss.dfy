/** Loss, duplication and reordering of ISO-TP frames, within one message and across
    messages: exactly what is delivered. */
module IsoTpLoss {
  import opened Bytes
  import opened IsoTp
  import opened IsoTpStreams
  import opened IsoTpTheorems

  // ----- Frames drawn from any messages --------------------------------------

  /** A Consecutive Frame by the payload it was cut from and its number there. */
  datatype Piece = Piece(owner: seq<byte>, index: nat) {
    /** Its data byte number `t`, a payload byte or padding. */
    function At(t: nat): byte {
      var k := 6 + 7 * index + t;
      if k < |owner| then owner[k] else PADDING
    }
  }

  function CfsOf(ps: seq<Piece>): (cs: seq<Frame>)
    ensures |cs| == |ps|
    ensures forall i | 0 <= i < |ps| :: cs[i] == ConsecutiveFrame(ps[i].owner, ps[i].index)
  {
    seq(|ps|, i requires 0 <= i < |ps| => ConsecutiveFrame(ps[i].owner, ps[i].index))
  }

  /** Enough frames, each a multiple of 16 places from where its number belongs. */
  predicate Aligned(ps: seq<Piece>, m: nat) {
    |ps| >= m && forall i | 0 <= i < m :: ps[i].index % 16 == i % 16
  }

  /** The First Frame of `p` continued with the data of the pieces, cut at |p|. */
  function Mixed(p: seq<byte>, ps: seq<Piece>): (q: seq<byte>)
    requires 8 <= |p| && |ps| >= CfCount(|p| - 6)
    ensures |q| == |p|
  {
    (p[..6] + Body(CfsOf(ps)))[..|p|]
  }

  lemma MixedFront(p: seq<byte>, ps: seq<Piece>, j: nat)
    requires 8 <= |p| && |ps| >= CfCount(|p| - 6) && j < 6
    ensures Mixed(p, ps)[j] == p[j]
  {
  }

  /** Where the other bytes come from. */
  lemma MixedAt(p: seq<byte>, ps: seq<Piece>, i: nat, t: nat)
    requires 8 <= |p| && |ps| >= CfCount(|p| - 6) && t < 7 && 6 + 7 * i + t < |p|
    ensures i < |ps| && Mixed(p, ps)[6 + 7 * i + t] == ps[i].At(t)
  {
    BodyByte(CfsOf(ps), i, t);
    PieceByte(ps[i].owner, ps[i].index, t);
    BehindFront(p[..6], Body(CfsOf(ps)), |p|, 7 * i + t);
  }

  lemma BehindFront(a: seq<byte>, b: seq<byte>, length: nat, k: nat)
    requires k < |b| && |a| + k < length <= |a| + |b|
    ensures (a + b)[..length][|a| + k] == b[k]
  {
  }

  lemma {:induction false} BodyByte(cs: seq<Frame>, i: nat, t: nat)
    requires i < |cs| && t < 7
    ensures Body(cs)[7 * i + t] == cs[i][1 + t]
  {
    if i > 0 {
      BodyByte(cs[1..], i - 1, t);
      BehindOne(cs[0], Body(cs[1..]), 7 * (i - 1) + t);
    }
  }

  lemma BehindOne(f: Frame, b: seq<byte>, k: nat)
    requires k < |b|
    ensures (f[1..] + b)[7 + k] == b[k]
  {
  }

  /** Which Consecutive Frame byte `j` of a message is in, and where. */
  lemma Position(j: nat) returns (i: nat, t: nat)
    requires j >= 6
    ensures j == 6 + 7 * i + t && t < 7
  {
    i, t := (j - 6) / 7, (j - 6) % 7;
  }

  lemma PieceByte(p: seq<byte>, i: nat, t: nat)
    requires t < 7
    ensures ConsecutiveFrame(p, i)[1 + t] == Piece(p, i).At(t)
  {
  }

  lemma PieceNumber(p: seq<byte>, i: nat)
    ensures IsCf(ConsecutiveFrame(p, i)) && LowNibble(ConsecutiveFrame(p, i)) == (1 + i) % 16
  {
  }

  lemma ResidueOfNext(a: nat)
    ensures (1 + a) % 16 == if a % 16 == 15 then 0 else a % 16 + 1
  {
  }

  lemma NextResidue(a: nat, b: nat)
    ensures (1 + a) % 16 == (1 + b) % 16 <==> a % 16 == b % 16
  {
    ResidueOfNext(a);
    ResidueOfNext(b);
  }

  lemma AlignedIsInOrder(ps: seq<Piece>, m: nat)
    ensures AllCf(CfsOf(ps))
    ensures InOrder(CfsOf(ps), 1) >= m <==> Aligned(ps, m)
  {
    var cs := CfsOf(ps);
    var n := InOrder(cs, 1);
    InOrderAt(cs, 1);
    forall i | 0 <= i < |ps|
      ensures IsCf(cs[i]) && LowNibble(cs[i]) == (1 + ps[i].index) % 16
    {
      PieceNumber(ps[i].owner, ps[i].index);
    }
    forall i | 0 <= i < |ps|
      ensures LowNibble(cs[i]) == (1 + i) % 16 <==> ps[i].index % 16 == i % 16
    {
      NextResidue(ps[i].index, i);
    }
  }

  /** The exact law of everything that loss, duplication and reordering can leave behind
      a First Frame: a payload is delivered if and only if enough frames follow and every
      needed one is a multiple of 16 places from home, and it is made of their bytes. */
  lemma MixtureExact(s: State, p: seq<byte>, ps: seq<Piece>)
    requires 8 <= |p| <= MAX_PAYLOAD
    ensures Delivered(s, [FirstFrame(p)] + CfsOf(ps))
      == if Aligned(ps, CfCount(|p| - 6)) then [Mixed(p, ps)] else []
  {
    var ff, cs := FirstFrame(p), CfsOf(ps);
    AlignedIsInOrder(ps, CfCount(|p| - 6));
    DataOfFrames(p);
    assert ff[2..8] == p[..6];
    MultiExact(s, ff, cs);
  }

  /** The frames of `p` with the numbers `src`, in that order. */
  function PiecesOf(p: seq<byte>, src: seq<nat>): (ps: seq<Piece>)
    ensures |ps| == |src| && forall i | 0 <= i < |src| :: ps[i] == Piece(p, src[i])
  {
    seq(|src|, i requires 0 <= i < |src| => Piece(p, src[i]))
  }

  // ----- Reordering and duplication within one message -----------------------

  /** The first `m` of these numbers are where they belong, modulo 16. */
  predicate HomeModulo16(src: seq<nat>, m: nat) {
    |src| >= m && forall i | 0 <= i < m :: src[i] % 16 == i % 16
  }

  lemma AlignedIffHome(ps: seq<Piece>, src: seq<nat>, m: nat)
    requires |ps| == |src| && forall i | 0 <= i < |ps| :: ps[i].index == src[i]
    ensures Aligned(ps, m) <==> HomeModulo16(src, m)
  {
    if Aligned(ps, m) {
      assert forall i | 0 <= i < m :: src[i] == ps[i].index;
    }
  }

  /** Any rearrangement, repetition or loss within one message. */
  lemma RearrangementExact(s: State, p: seq<byte>, src: seq<nat>)
    requires 8 <= |p| <= MAX_PAYLOAD
    ensures Delivered(s, [FirstFrame(p)] + CfsOf(PiecesOf(p, src)))
      == if HomeModulo16(src, CfCount(|p| - 6)) then [Mixed(p, PiecesOf(p, src))] else []
  {
    MixtureExact(s, p, PiecesOf(p, src));
    AlignedIffHome(PiecesOf(p, src), src, CfCount(|p| - 6));
  }

  /** `cs` is made of Consecutive Frames of `p`, each fewer than 16 places from home. */
  predicate Displaced(p: seq<byte>, cs: seq<Frame>, src: seq<nat>)
    requires 8 <= |p|
  {
    && |src| == |cs|
    && forall i | 0 <= i < |cs| ::
         && src[i] < CfCount(|p| - 6)
         && cs[i] == ConsecutiveFrames(p)[src[i]]
         && i - 16 < src[i] < i + 16
  }

  /** With such displacements, reordered or repeated frames deliver the original
      or nothing, and the original only when every needed frame is at home. */
  lemma DisplacementExact(s: State, p: seq<byte>, cs: seq<Frame>, src: seq<nat>)
    requires 8 <= |p| <= MAX_PAYLOAD && Displaced(p, cs, src)
    ensures var m := CfCount(|p| - 6);
      Delivered(s, [FirstFrame(p)] + cs)
        == if |cs| >= m && forall i | 0 <= i < m :: src[i] == i then [p] else []
  {
    var m := CfCount(|p| - 6);
    DisplacedAreDrawn(p, cs, src);
    RearrangementExact(s, p, src);
    NearbyResidues(src, m);
    if HomeModulo16(src, m) {
      AtHome(p, src);
    }
  }

  lemma DisplacedAreDrawn(p: seq<byte>, cs: seq<Frame>, src: seq<nat>)
    requires 8 <= |p| && Displaced(p, cs, src)
    ensures cs == CfsOf(PiecesOf(p, src))
  {
    var ds := CfsOf(PiecesOf(p, src));
    forall i | 0 <= i < |cs|
      ensures cs[i] == ds[i]
    {
      assert ds[i] == ConsecutiveFrame(p, src[i]);
    }
  }

  lemma NearbyResidues(src: seq<nat>, m: nat)
    requires forall i | 0 <= i < |src| :: i - 16 < src[i] < i + 16
    ensures HomeModulo16(src, m) <==> |src| >= m && forall i | 0 <= i < m :: src[i] == i
  {
    if HomeModulo16(src, m) {
      forall i | 0 <= i < m
        ensures src[i] == i
      {
        SameResidue(src[i], i);
      }
    }
  }

  lemma SameResidue(a: nat, b: nat)
    requires a % 16 == b % 16 && b - 16 < a < b + 16
    ensures a == b
  {
  }

  lemma AtHome(p: seq<byte>, src: seq<nat>)
    requires 8 <= |p| && |src| >= CfCount(|p| - 6)
    requires forall i | 0 <= i < CfCount(|p| - 6) :: src[i] == i
    ensures Mixed(p, PiecesOf(p, src)) == p
  {
    var q := Mixed(p, PiecesOf(p, src));
    forall j | 0 <= j < |p|
      ensures q[j] == p[j]
    {
      if j < 6 {
        MixedFront(p, PiecesOf(p, src), j);
      } else {
        var i, t := Position(j);
        assert i < CfCount(|p| - 6) && src[i] == i;
        DrawnAt(p, src, i, t);
        PieceAt(p, i, t, j);
      }
    }
    assert q == p;
  }

  lemma DrawnAt(p: seq<byte>, src: seq<nat>, i: nat, t: nat)
    requires 8 <= |p| && |src| >= CfCount(|p| - 6) && t < 7 && 6 + 7 * i + t < |p|
    ensures i < |src| && Mixed(p, PiecesOf(p, src))[6 + 7 * i + t] == Piece(p, src[i]).At(t)
  {
    MixedAt(p, PiecesOf(p, src), i, t);
  }

  lemma PieceAt(p: seq<byte>, i: nat, t: nat, o: nat)
    requires o == 6 + 7 * i + t < |p|
    ensures Piece(p, i).At(t) == p[o]
  {
  }

  /** The bound is sharp: exchanging two frames 16 places apart goes unnoticed, and
      what is delivered has the bytes of the two frames exchanged. */
  lemma SixteenApartSplices(s: State, p: seq<byte>, i: nat)
    requires 8 <= |p| <= MAX_PAYLOAD && i + 17 < CfCount(|p| - 6)
    ensures var all := ConsecutiveFrames(p);
      var cs := all[i := all[i + 16]][i + 16 := all[i]];
      var a, b := 6 + 7 * i, 6 + 7 * (i + 16);
      Delivered(s, [FirstFrame(p)] + cs)
        == [p[..a] + p[b..b + 7] + p[a + 7..b] + p[a..a + 7] + p[b + 7..]]
  {
    var src := ExchangedNumbers(i, CfCount(|p| - 6));
    RearrangementExact(s, p, src);
    ExchangedFrames(p, i);
    ExchangedMixture(p, i);
  }

  /** The number of the frame that comes `k`-th when `i` and `i + 16` are exchanged. */
  function Exchanged(i: nat, k: nat): (e: nat)
    ensures e % 16 == k % 16
  {
    if k == i then i + 16 else if k == i + 16 then i else k
  }

  function ExchangedNumbers(i: nat, m: nat): (src: seq<nat>)
    ensures |src| == m && forall k | 0 <= k < m :: src[k] == Exchanged(i, k)
  {
    seq(m, k requires 0 <= k => Exchanged(i, k))
  }

  lemma ExchangedFrames(p: seq<byte>, i: nat)
    requires 8 <= |p| && i + 17 < CfCount(|p| - 6)
    ensures var all := ConsecutiveFrames(p);
      all[i := all[i + 16]][i + 16 := all[i]] == CfsOf(PiecesOf(p, ExchangedNumbers(i, |all|)))
  {
    var all := ConsecutiveFrames(p);
    var ps := PiecesOf(p, ExchangedNumbers(i, |all|));
    forall k | 0 <= k < |all|
      ensures CfsOf(ps)[k] == all[Exchanged(i, k)]
    {
      assert ps[k] == Piece(p, Exchanged(i, k));
    }
  }

  lemma ExchangedMixture(p: seq<byte>, i: nat)
    requires 8 <= |p| && i + 17 < CfCount(|p| - 6)
    ensures var a, b := 6 + 7 * i, 6 + 7 * (i + 16);
      Mixed(p, PiecesOf(p, ExchangedNumbers(i, CfCount(|p| - 6))))
        == p[..a] + p[b..b + 7] + p[a + 7..b] + p[a..a + 7] + p[b + 7..]
  {
    var a, b := 6 + 7 * i, 6 + 7 * (i + 16);
    var r := Mixed(p, PiecesOf(p, ExchangedNumbers(i, CfCount(|p| - 6))));
    var q := p[..a] + p[b..b + 7] + p[a + 7..b] + p[a..a + 7] + p[b + 7..];
    forall j | 0 <= j < |p|
      ensures r[j] == q[j]
    {
      SplicedAt(p, a, b, j);
      ExchangedByte(p, i, j);
    }
    assert r == q;
  }

  lemma ExchangedByte(p: seq<byte>, i: nat, j: nat)
    requires 8 <= |p| && i + 17 < CfCount(|p| - 6) && j < |p|
    requires 0 <= Origin(6 + 7 * i, 6 + 7 * (i + 16), j) < |p|
    ensures Mixed(p, PiecesOf(p, ExchangedNumbers(i, CfCount(|p| - 6))))[j]
      == p[Origin(6 + 7 * i, 6 + 7 * (i + 16), j)]
  {
    var src := ExchangedNumbers(i, CfCount(|p| - 6));
    if j < 6 {
      MixedFront(p, PiecesOf(p, src), j);
    } else {
      var c, t := Position(j);
      DrawnAt(p, src, c, t);
      ExchangedOrigin(i, c, t);
      PieceAt(p, Exchanged(i, c), t, Origin(6 + 7 * i, 6 + 7 * (i + 16), j));
    }
  }

  /** The position that byte `j` comes from after exchanging 7 bytes at `a` and `b`. */
  function Origin(a: nat, b: nat, j: nat): int {
    if a <= j < a + 7 then j + (b - a) else if b <= j < b + 7 then j - (b - a) else j
  }

  lemma ExchangedOrigin(i: nat, c: nat, t: nat)
    requires t < 7
    ensures Origin(6 + 7 * i, 6 + 7 * (i + 16), 6 + 7 * c + t) == 6 + 7 * Exchanged(i, c) + t
  {
  }

  lemma SplicedAt<T>(p: seq<T>, a: nat, b: nat, j: nat)
    requires a + 7 <= b && b + 7 <= |p| && j < |p|
    ensures 0 <= Origin(a, b, j) < |p|
    ensures (p[..a] + p[b..b + 7] + p[a + 7..b] + p[a..a + 7] + p[b + 7..])[j] == p[Origin(a, b, j)]
  {
  }

  // ----- Loss ----------------------------------------------------------------

  /** Fewer Consecutive Frames than announced never complete, whatever they hold. */
  lemma TooFewFrames(s: State, ff: Frame, cs: seq<Frame>)
    requires IsFirst(ff) && AllCf(cs) && |cs| < Needed(ff)
    ensures Delivered(s, [ff] + cs) == []
  {
    MultiExact(s, ff, cs);
  }

  /** Losing any Consecutive Frames is noticed, also a run of 16 of them, after
      which the sequence numbers match again. */
  lemma LossIsDetected(s: State, p: seq<byte>, cs: seq<Frame>)
    requires 8 <= |p| <= MAX_PAYLOAD
    requires Subsequence(cs, ConsecutiveFrames(p)) && cs != ConsecutiveFrames(p)
    ensures Delivered(s, [FirstFrame(p)] + cs) == []
  {
    CfsAreNumbered(p);
    DataOfFrames(p);
    SubsequenceShorter(cs, ConsecutiveFrames(p));
    assert forall i | 0 <= i < |cs| :: cs[i] in cs;
    TooFewFrames(s, FirstFrame(p), cs);
  }

  // ----- Runs of messages that lose frames -----------------------------------

  /** A message and the Consecutive Frames of it that arrive; its start frame arrives. */
  datatype Lossy = Lossy(payload: seq<byte>, survivors: seq<Frame>) {
    ghost predicate Legal() {
      && 1 <= |payload| <= MAX_PAYLOAD
      && Subsequence(survivors, Frames(payload)[1..])
    }

    function Outcome(): seq<seq<byte>>
      requires |payload| <= MAX_PAYLOAD
    {
      if survivors == Frames(payload)[1..] then [payload] else []
    }
  }

  type LegalLossy = l: Lossy | l.Legal() ghost witness Lossy([0], [])

  ghost function LossyStream(ls: seq<LegalLossy>): seq<Frame> {
    if ls == [] then [] else [Frames(ls[0].payload)[0]] + ls[0].survivors + LossyStream(ls[1..])
  }

  /** The payloads of the messages that survive whole. */
  ghost function Survivors(ls: seq<LegalLossy>): seq<seq<byte>> {
    if ls == [] then [] else ls[0].Outcome() + Survivors(ls[1..])
  }

  lemma LossyOne(s: State, l: LegalLossy)
    ensures Delivered(s, [Frames(l.payload)[0]] + l.survivors) == l.Outcome()
  {
    var p := l.payload;
    if |p| <= 7 {
      assert Frames(p)[1..] == [] && [Frames(p)[0]] + l.survivors == Frames(p);
      RoundTrip(s, p);
    } else {
      assert Frames(p)[1..] == ConsecutiveFrames(p);
      if l.survivors == ConsecutiveFrames(p) {
        RoundTrip(s, p);
      } else {
        LossIsDetected(s, p, l.survivors);
      }
    }
  }

  /** As long as no start frame is lost, loss of any Consecutive Frames of any messages is
      safe: exactly the messages that survive whole are delivered, in order, from any
      state of the receiver. */
  lemma {:induction false} LossyRunExact(s: State, ls: seq<LegalLossy>)
    ensures Delivered(s, LossyStream(ls)) == Survivors(ls)
    decreases |ls|
  {
    if ls != [] {
      var one := [Frames(ls[0].payload)[0]] + ls[0].survivors;
      LossyOne(s, ls[0]);
      StreamConcat(s, one, LossyStream(ls[1..]));
      LossyRunExact(After(s, one), ls[1..]);
    }
  }

  /** A start frame that arrives, and all Consecutive Frames that arrive before the next
      one, whatever messages they belong to. */
  datatype Heard = Heard(payload: seq<byte>, pieces: seq<Piece>) {
    predicate Legal() { 1 <= |payload| <= MAX_PAYLOAD }

    function Outcome(): seq<seq<byte>>
      requires Legal()
    {
      if |payload| <= 7 then [payload]
      else if Aligned(pieces, CfCount(|payload| - 6)) then [Mixed(payload, pieces)]
      else []
    }
  }

  type LegalHeard = h: Heard | h.Legal() witness Heard([0], [])

  function HeardStream(hs: seq<LegalHeard>): seq<Frame> {
    if hs == [] then [] else [Frames(hs[0].payload)[0]] + CfsOf(hs[0].pieces) + HeardStream(hs[1..])
  }

  function HeardOutcomes(hs: seq<LegalHeard>): seq<seq<byte>> {
    if hs == [] then [] else hs[0].Outcome() + HeardOutcomes(hs[1..])
  }

  lemma HeardOne(s: State, h: LegalHeard)
    ensures Delivered(s, [Frames(h.payload)[0]] + CfsOf(h.pieces)) == h.Outcome()
  {
    if |h.payload| <= 7 {
      var f := SingleFrame(h.payload);
      AlignedIsInOrder(h.pieces, 0);
      SingleExact(s, f);
      assert f[1..1 + |h.payload|] == h.payload;
      StreamConcat(s, [f], CfsOf(h.pieces));
      IdleIgnoresCfs(CfsOf(h.pieces));
    } else {
      MixtureExact(s, h.payload, h.pieces);
    }
  }

  /** What Consecutive Frames that come before any start frame make of the message that
      is open when they come. */
  function LeadOutcome(s: State, lead: seq<Frame>): seq<seq<byte>> {
    if s.active && InOrder(lead, s.nextSeq) >= s.Missing() then [(s.buffer + Body(lead))[..s.expected]] else []
  }

  lemma LeadExact(s: State, lead: seq<Frame>)
    requires AllCf(lead)
    ensures Delivered(s, lead) == LeadOutcome(s, lead)
  {
    if s.active {
      CfListExact(s, lead);
    } else {
      IdleIgnoresCfs(lead);
    }
  }

  /** What is delivered when start frames may be lost too: first what the Consecutive
      Frames before the first start frame complete, nothing from the idle state; then of
      every start frame that arrives exactly the outcome of `MixtureExact`. */
  lemma AnyLossExact(s: State, lead: seq<Frame>, hs: seq<LegalHeard>)
    requires AllCf(lead)
    ensures Delivered(s, lead + HeardStream(hs)) == LeadOutcome(s, lead) + HeardOutcomes(hs)
  {
    LeadExact(s, lead);
    StreamConcat(s, lead, HeardStream(hs));
    HeardAll(After(s, lead), hs);
  }

  lemma {:induction false} HeardAll(s: State, hs: seq<LegalHeard>)
    ensures Delivered(s, HeardStream(hs)) == HeardOutcomes(hs)
    decreases |hs|
  {
    if hs != [] {
      var one := [Frames(hs[0].payload)[0]] + CfsOf(hs[0].pieces);
      HeardOne(s, hs[0]);
      StreamConcat(s, one, HeardStream(hs[1..]));
      HeardAll(After(s, one), hs[1..]);
    }
  }

  // ----- One lost start frame ------------------------------------------------

  lemma CfsConcat(a: seq<Piece>, b: seq<Piece>)
    ensures CfsOf(a + b) == CfsOf(a) + CfsOf(b)
  {
  }

  /** The First Frame of `q` is lost, and of both messages only the frames `a` and `b`
      arrive: something is delivered if and only if the frames together are enough for
      `p` and every needed one is a multiple of 16 places from home. */
  lemma LostStartExact(s: State, p: seq<byte>, q: seq<byte>, a: seq<nat>, b: seq<nat>)
    requires 8 <= |p| <= MAX_PAYLOAD
    ensures Delivered(s, [FirstFrame(p)] + (CfsOf(PiecesOf(p, a)) + CfsOf(PiecesOf(q, b))))
      == if HomeModulo16(a + b, CfCount(|p| - 6)) then [Mixed(p, PiecesOf(p, a) + PiecesOf(q, b))] else []
  {
    var ps := PiecesOf(p, a) + PiecesOf(q, b);
    CfsConcat(PiecesOf(p, a), PiecesOf(q, b));
    MixtureExact(s, p, ps);
    AlignedIffHome(ps, a + b, CfCount(|p| - 6));
  }

  /** The bytes that the frames of `q` carry, padding included. */
  function Padded(q: seq<byte>): (r: seq<byte>)
    requires 8 <= |q|
    ensures |r| == 6 + 7 * CfCount(|q| - 6)
    ensures forall j | 0 <= j < |r| :: r[j] == if j < |q| then q[j] else PADDING
  {
    q + Repeat(PADDING, 6 + 7 * CfCount(|q| - 6) - |q|)
  }

  /** The numbers lo, lo + 1, ..., hi - 1. */
  function Numbers(lo: nat, hi: nat): (r: seq<nat>)
    requires lo <= hi
    ensures |r| == hi - lo && forall i | 0 <= i < |r| :: r[i] == lo + i
  {
    seq(hi - lo, i requires 0 <= i => lo + i)
  }

  lemma SliceIsDrawn(p: seq<byte>, lo: nat, hi: nat)
    requires 8 <= |p| && lo <= hi <= CfCount(|p| - 6)
    ensures ConsecutiveFrames(p)[lo..hi] == CfsOf(PiecesOf(p, Numbers(lo, hi)))
  {
    var ps := PiecesOf(p, Numbers(lo, hi));
    forall i | 0 <= i < hi - lo
      ensures CfsOf(ps)[i] == ConsecutiveFrame(p, lo + i)
    {
      assert ps[i] == Piece(p, lo + i);
    }
  }

  /** What one burst of loss over the border of two messages delivers: `p` from frame `k`
      on, the First Frame of `q` and its first `l` Consecutive Frames are gone. The burst
      goes unnoticed if and only if k and l agree modulo 16 and `q` is long enough. */
  function BurstOutcome(p: seq<byte>, q: seq<byte>, k: nat, l: nat): seq<seq<byte>>
    requires 8 <= |p| && 8 <= |q| && k <= CfCount(|p| - 6) && l <= CfCount(|q| - 6)
  {
    if k == CfCount(|p| - 6) then [p]
    else if k % 16 == l % 16 && CfCount(|q| - 6) - l >= CfCount(|p| - 6) - k then [Spliced(p, q, k, l)]
    else []
  }

  /** The front of `p` up to frame `k`, continued from frame `l` of `q`. */
  function Spliced(p: seq<byte>, q: seq<byte>, k: nat, l: nat): (r: seq<byte>)
    requires 8 <= |p| && 8 <= |q| && k < CfCount(|p| - 6) && l <= CfCount(|q| - 6)
    requires CfCount(|q| - 6) - l >= CfCount(|p| - 6) - k
    ensures |r| == |p|
  {
    p[..6 + 7 * k] + Padded(q)[6 + 7 * l..6 + 7 * l + |p| - (6 + 7 * k)]
  }

  lemma BurstLossExact(s: State, p: seq<byte>, q: seq<byte>, k: nat, l: nat)
    requires 8 <= |p| <= MAX_PAYLOAD && 8 <= |q|
    requires k <= CfCount(|p| - 6) && l <= CfCount(|q| - 6)
    ensures Delivered(s, [FirstFrame(p)] + (ConsecutiveFrames(p)[..k] + ConsecutiveFrames(q)[l..]))
      == BurstOutcome(p, q, k, l)
  {
    var m, n := CfCount(|p| - 6), CfCount(|q| - 6);
    SliceIsDrawn(p, 0, k);
    SliceIsDrawn(q, l, n);
    assert ConsecutiveFrames(p)[..k] == ConsecutiveFrames(p)[0..k];
    assert ConsecutiveFrames(q)[l..] == ConsecutiveFrames(q)[l..n];
    LostStartExact(s, p, q, Numbers(0, k), Numbers(l, n));
    BurstAligned(k, l, m, n);
    BurstMixture(p, q, k, l);
  }

  lemma BurstAligned(k: nat, l: nat, m: nat, n: nat)
    requires k <= m && l <= n
    ensures HomeModulo16(Numbers(0, k) + Numbers(l, n), m)
      <==> (k == m || (k % 16 == l % 16 && n - l >= m - k))
  {
    var c := Numbers(0, k) + Numbers(l, n);
    if k < m && |c| >= m {
      assert c[k] == l;
      if k % 16 == l % 16 {
        forall i | 0 <= i < m
          ensures c[i] % 16 == i % 16
        {
          if i >= k {
            ShiftResidue(k, l, i - k);
          }
        }
      }
    }
  }

  lemma ShiftResidue(a: nat, b: nat, d: nat)
    requires a % 16 == b % 16
    ensures (a + d) % 16 == (b + d) % 16
  {
  }

  lemma BurstMixture(p: seq<byte>, q: seq<byte>, k: nat, l: nat)
    requires 8 <= |p| && 8 <= |q| && k <= CfCount(|p| - 6) && l <= CfCount(|q| - 6)
    ensures var m, n := CfCount(|p| - 6), CfCount(|q| - 6);
      var ps := PiecesOf(p, Numbers(0, k)) + PiecesOf(q, Numbers(l, n));
      && (k == m ==> Mixed(p, ps) == p)
      && (k < m && n - l >= m - k ==> Mixed(p, ps) == Spliced(p, q, k, l))
  {
    var m, n := CfCount(|p| - 6), CfCount(|q| - 6);
    var ps := PiecesOf(p, Numbers(0, k)) + PiecesOf(q, Numbers(l, n));
    if k == m || n - l >= m - k {
      var r := if k == m then p else Spliced(p, q, k, l);
      BurstPiece(p, q, k, l, n);
      forall j: nat | j < |p|
        ensures Mixed(p, ps)[j] == r[j]
      {
        if j < 6 + 7 * k {
          FrontByte(p, ps, k, j);
        } else {
          BackByte(p, q, ps, k, l, j);
          SplicedBack(p, q, k, l, j);
        }
      }
      assert Mixed(p, ps) == r;
    }
  }

  lemma FrontByte(p: seq<byte>, ps: seq<Piece>, k: nat, j: nat)
    requires 8 <= |p| && |ps| >= CfCount(|p| - 6) && j < |p| && j < 6 + 7 * k
    requires forall i | 0 <= i < |ps| && i < k :: ps[i] == Piece(p, i)
    ensures Mixed(p, ps)[j] == p[j]
  {
    if j < 6 {
      MixedFront(p, ps, j);
    } else {
      var i, t := Position(j);
      MixedAt(p, ps, i, t);
      PieceAt(p, i, t, j);
    }
  }

  lemma BackByte(p: seq<byte>, q: seq<byte>, ps: seq<Piece>, k: nat, l: nat, j: nat)
    requires 8 <= |p| && 8 <= |q| && |ps| >= CfCount(|p| - 6) && 6 + 7 * k <= j < |p|
    requires forall i | k <= i < |ps| :: ps[i] == Piece(q, l + i - k)
    ensures var b := 6 + 7 * l + (j - (6 + 7 * k)); b < |Padded(q)| ==> Mixed(p, ps)[j] == Padded(q)[b]
  {
    var i, t := Position(j);
    MixedAt(p, ps, i, t);
    PaddedSource(q, l + i - k, t);
  }

  lemma SplicedBack(p: seq<byte>, q: seq<byte>, k: nat, l: nat, j: nat)
    requires 8 <= |p| && 8 <= |q| && k < CfCount(|p| - 6) && l <= CfCount(|q| - 6)
    requires CfCount(|q| - 6) - l >= CfCount(|p| - 6) - k
    requires 6 + 7 * k <= j < |p|
    ensures 6 + 7 * l + (j - (6 + 7 * k)) < |Padded(q)|
    ensures Spliced(p, q, k, l)[j] == Padded(q)[6 + 7 * l + (j - (6 + 7 * k))]
  {
  }

  lemma PaddedSource(q: seq<byte>, i: nat, t: nat)
    requires 8 <= |q|
    ensures 6 + 7 * i + t < |Padded(q)| ==> Piece(q, i).At(t) == Padded(q)[6 + 7 * i + t]
  {
  }

  lemma BurstPiece(p: seq<byte>, q: seq<byte>, k: nat, l: nat, n: nat)
    requires l <= n
    ensures var ps := PiecesOf(p, Numbers(0, k)) + PiecesOf(q, Numbers(l, n));
      && |ps| == k + n - l
      && forall i | 0 <= i < |ps| :: ps[i] == if i < k then Piece(p, i) else Piece(q, l + i - k)
  {
  }

  lemma SplicedInside(p: seq<byte>, q: seq<byte>, k: nat)
    requires 8 <= |p| <= |q| && k < CfCount(|p| - 6)
    ensures Spliced(p, q, k, k) == p[..6 + 7 * k] + q[6 + 7 * k..|p|]
  {
    assert Padded(q)[6 + 7 * k..|p|] == q[6 + 7 * k..|p|];
  }

  /** Loss is detected within one message only: when the tail of `p`, the First Frame of a
      message `q` that is not shorter, and as many of its Consecutive Frames are lost, the
      two are delivered as one. */
  lemma LossAcrossMessagesSplices(s: State, p: seq<byte>, q: seq<byte>, k: nat)
    requires 8 <= |p| <= |q| <= MAX_PAYLOAD && k < CfCount(|p| - 6)
    ensures Delivered(s, [FirstFrame(p)] + (ConsecutiveFrames(p)[..k] + ConsecutiveFrames(q)[k..]))
      == [p[..6 + 7 * k] + q[6 + 7 * k..|p|]]
  {
    BurstLossExact(s, p, q, k, k);
    SplicedInside(p, q, k);
  }
}

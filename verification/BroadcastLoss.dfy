/** Broadcasts end to end when the interface drops frames. */
module BroadcastLoss {
  import opened Bytes
  import opened Bus
  import opened Broadcast
  import opened CollectLoss
  import Collect

  // ----- What the interface lets through -------------------------------------

  /** The elements of `s` that are kept; those behind the list of decisions are not. */
  function Passed<T>(s: seq<T>, keep: seq<bool>): seq<T>
    requires |keep| <= |s|
  {
    if keep == [] then [] else (if keep[0] then [s[0]] else []) + Passed(s[1..], keep[1..])
  }

  lemma {:induction false} PassedSnoc<T>(s: seq<T>, keep: seq<bool>, b: bool)
    requires |keep| < |s|
    ensures Passed(s, keep + [b]) == Passed(s, keep) + if b then [s[|keep|]] else []
    decreases |keep|
  {
    if keep == [] {
      assert ([] + [b])[1..] == [] && [] + [b] == [b];
    } else {
      ConcatTail(keep, [b]);
      PassedSnoc(s[1..], keep[1..], b);
      Regroup(if keep[0] then [s[0]] else [], Passed(s[1..], keep[1..]), if b then [s[|keep|]] else []);
    }
  }

  lemma {:induction false} PassedMore<T>(s: seq<T>, more: seq<T>, keep: seq<bool>)
    requires |keep| <= |s|
    ensures Passed(s + more, keep) == Passed(s, keep)
    decreases |keep|
  {
    if keep != [] {
      ConcatTail(s, more);
      PassedMore(s[1..], more, keep[1..]);
    }
  }

  lemma {:induction false} PassedConcat<T>(a: seq<T>, b: seq<T>, x: seq<bool>, y: seq<bool>)
    requires |x| == |a| && |y| <= |b|
    ensures Passed(a + b, x + y) == Passed(a, x) + Passed(b, y)
    decreases |x|
  {
    if x == [] {
      assert a + b == b && x + y == y;
    } else {
      ConcatTail(a, b);
      ConcatTail(x, y);
      PassedConcat(a[1..], b, x[1..], y);
      Regroup(if x[0] then [a[0]] else [], Passed(a[1..], x[1..]), Passed(b, y));
    }
  }

  /** For every frame taken from the queue, whether it went out. */
  function Fates(evs: seq<Event>): seq<bool> {
    if evs == [] then []
    else
      var init, e := evs[..|evs| - 1], evs[|evs| - 1];
      Fates(init) + if e.Turn? && Broadcast.Run(init).queue != [] then [GoesOut(e.answers)] else []
  }

  /** The queue is what no decision was made on; the wire is what went out. */
  predicate Decided(b: BusState, keep: seq<bool>) {
    && |keep| <= |b.enqueued| && b.queue == b.enqueued[|keep|..] && b.wire == Passed(b.enqueued, keep)
  }

  lemma EnqueuedDecided(b: BusState, keep: seq<bool>, more: seq<Sent>)
    requires Decided(b, keep)
    ensures Decided(Enqueued(b, more), keep)
  {
    PassedMore(b.enqueued, more, keep);
    assert (b.enqueued + more)[|keep|..] == b.queue + more;
  }

  lemma TurnedDecided(b: BusState, keep: seq<bool>, answers: Answers)
    requires Decided(b, keep) && b.queue != []
    ensures Decided(Turned(b, answers), keep + [GoesOut(answers)])
  {
    PassedSnoc(b.enqueued, keep, GoesOut(answers));
    assert b.queue[0] == b.enqueued[|keep|] && b.queue[1..] == b.enqueued[|keep| + 1..];
  }

  lemma {:induction false} RunDecided(evs: seq<Event>)
    ensures Decided(Broadcast.Run(evs), Fates(evs))
  {
    if evs != [] {
      var init, e := evs[..|evs| - 1], evs[|evs| - 1];
      RunDecided(init);
      assert Fates(init) + [] == Fates(init);
      match e {
        case Fire(id, did, payload) =>
          EnqueuedDecided(Broadcast.Run(init), Fates(init), Tagged(id, FiredFrames(did, payload)));
        case Put(sent) => EnqueuedDecided(Broadcast.Run(init), Fates(init), [sent]);
        case Turn(answers) =>
          if Broadcast.Run(init).queue != [] {
            TurnedDecided(Broadcast.Run(init), Fates(init), answers);
          }
      }
    }
  }

  /** The decisions on the frames of one CAN-ID. */
  function DecisionsOn(tx: seq<Sent>, keep: seq<bool>, id: int): seq<bool>
    requires |keep| <= |tx|
  {
    if keep == [] then []
    else (if tx[0].id == id then [keep[0]] else []) + DecisionsOn(tx[1..], keep[1..], id)
  }

  lemma OnIdCons(x: Sent, tx: seq<Sent>, id: int)
    ensures OnId([x] + tx, id) == (if x.id == id then [x.data] else []) + OnId(tx, id)
  {
    OnIdConcat([x], tx, id);
    assert [x][..0] == [];
  }

  /** Looking at one CAN-ID and dropping frames commute. */
  lemma {:induction false} PassedOnId(tx: seq<Sent>, keep: seq<bool>, id: int)
    requires |keep| <= |tx|
    ensures |DecisionsOn(tx, keep, id)| <= |OnId(tx, id)|
    ensures OnId(Passed(tx, keep), id) == Passed(OnId(tx, id), DecisionsOn(tx, keep, id))
    decreases |keep|
  {
    if keep != [] {
      var x, rest, ds := tx[0], OnId(tx[1..], id), DecisionsOn(tx[1..], keep[1..], id);
      var passed := Passed(tx[1..], keep[1..]);
      PassedOnId(tx[1..], keep[1..], id);
      assert tx == [x] + tx[1..];
      OnIdCons(x, tx[1..], id);
      if keep[0] {
        OnIdCons(x, passed, id);
      } else {
        assert [] + passed == passed;
      }
      if x.id == id {
        PassedCons(x.data, rest, keep[0], ds);
      } else {
        assert [] + rest == rest && [] + ds == ds;
      }
    }
  }

  lemma PassedCons<T>(x: T, rest: seq<T>, b: bool, keep: seq<bool>)
    requires |keep| <= |rest|
    ensures Passed([x] + rest, [b] + keep) == (if b then [x] else []) + Passed(rest, keep)
  {
    assert ([x] + rest)[1..] == rest && ([b] + keep)[1..] == keep;
  }

  // ----- Messages under decisions --------------------------------------------

  function FrameCount(m: Collect.Sendable): nat { 1 + Collect.ContinuationCount(|m.payload|) }

  /** The decisions on the frames of the next message, and those behind. */
  function Mine(m: Collect.Sendable, keep: seq<bool>): seq<bool> { keep[..Min(FrameCount(m), |keep|)] }

  function Others(m: Collect.Sendable, keep: seq<bool>): seq<bool> { keep[Min(FrameCount(m), |keep|)..] }

  predicate AllKept(keep: seq<bool>) { forall i | 0 <= i < |keep| :: keep[i] }

  /** No first frame is dropped. */
  predicate FirstsKept(ms: seq<Collect.Sendable>, keep: seq<bool>)
    decreases |ms|
  {
    ms == [] || keep == [] || (keep[0] && FirstsKept(ms[1..], Others(ms[0], keep)))
  }

  /** The messages whose frames have all been taken from the queue and let through. */
  function Undamaged(ms: seq<Collect.Sendable>, keep: seq<bool>): seq<Collect.Message>
    decreases |ms|
  {
    if ms == [] then []
    else
      (if |keep| >= FrameCount(ms[0]) && AllKept(Mine(ms[0], keep)) then [ms[0]] else [])
      + Undamaged(ms[1..], Others(ms[0], keep))
  }

  predicate AllShort(ms: seq<Collect.Sendable>) {
    forall i | 0 <= i < |ms| :: Short(ms[i].payload)
  }

  /** The places, counted from `lo`, of the kept ones. */
  function Places(keep: seq<bool>, lo: nat): seq<nat> {
    if keep == [] then [] else (if keep[0] then [lo] else []) + Places(keep[1..], lo + 1)
  }

  lemma {:induction false} PlacesAscend(keep: seq<bool>, lo: nat, n: nat)
    requires lo + |keep| <= n
    ensures Ascending(Places(keep, lo), lo, n)
    ensures |Places(keep, lo)| <= |keep|
    ensures |Places(keep, lo)| == |keep| <==> AllKept(keep)
    decreases |keep|
  {
    if keep != [] {
      var rest := Places(keep[1..], lo + 1);
      PlacesAscend(keep[1..], lo + 1, n);
      AllKeptCons(keep);
      if keep[0] {
        assert ([lo] + rest)[1..] == rest;
      } else {
        AscendingFrom(rest, lo, n);
        assert [] + rest == rest;
      }
    }
  }

  lemma AscendingFrom(ks: seq<nat>, lo: nat, n: nat)
    requires Ascending(ks, lo + 1, n)
    ensures Ascending(ks, lo, n)
  {
  }

  lemma AllKeptCons(keep: seq<bool>)
    requires keep != []
    ensures AllKept(keep) <==> keep[0] && AllKept(keep[1..])
  {
    if keep[0] && AllKept(keep[1..]) {
      forall i | 0 <= i < |keep|
        ensures keep[i]
      {
        assert i > 0 ==> keep[i] == keep[1..][i - 1];
      }
    }
  }

  /** The continuation frames at the kept places are those that pass. */
  lemma {:induction false} KeptPass(p: seq<byte>, keep: seq<bool>, lo: nat)
    requires 1 <= |p| <= 255 && lo + |keep| <= Collect.ContinuationCount(|p|)
    ensures Kept(p, Places(keep, lo)) == Passed(Collect.Continuations(p)[lo..], keep)
    decreases |keep|
  {
    var cs := Collect.Continuations(p);
    if keep != [] {
      KeptPass(p, keep[1..], lo + 1);
      DropOne(cs, lo);
      KeptCons(p, lo, Places(keep[1..], lo + 1));
    }
  }

  lemma KeptCons(p: seq<byte>, k: nat, ks: seq<nat>)
    requires 1 <= |p| <= 255
    ensures Kept(p, [k] + ks) == [Collect.Continuation(p, k)] + Kept(p, ks)
  {
  }

  /** A message whose first frame passes, with the continuation frames that pass. */
  function LossyOf(m: Brevity, keep: seq<bool>): LegalLossy
    requires 1 <= |keep| <= FrameCount(m)
  {
    PlacesAscend(keep[1..], 0, Collect.ContinuationCount(|m.payload|));
    Lossy(m, Places(keep[1..], 0))
  }

  lemma LossyOfPasses(m: Brevity, keep: seq<bool>)
    requires 1 <= |keep| <= FrameCount(m) && keep[0]
    ensures |Collect.Frames(m.did, m.payload)| == FrameCount(m)
    ensures LossyFrames(LossyOf(m, keep)) == Passed(Collect.Frames(m.did, m.payload), keep)
    ensures LossyOf(m, keep).Outcome() == if |keep| == FrameCount(m) && AllKept(keep) then [m] else []
  {
    var cs := Collect.Continuations(m.payload);
    KeptPass(m.payload, keep[1..], 0);
    PlacesAscend(keep[1..], 0, Collect.ContinuationCount(|m.payload|));
    AllKeptCons(keep);
    assert cs[0..] == cs && Collect.Frames(m.did, m.payload)[1..] == cs;
  }

  function LossyAll(ms: seq<Collect.Sendable>, keep: seq<bool>): seq<LegalLossy>
    requires AllShort(ms)
    decreases |ms|
  {
    if ms == [] || keep == [] then []
    else
      assert Short(ms[0].payload) && AllShort(ms[1..]) by {
        assert forall i | 0 <= i < |ms[1..]| :: ms[1..][i] == ms[i + 1];
      }
      [LossyOf(ms[0], Mine(ms[0], keep))] + LossyAll(ms[1..], Others(ms[0], keep))
  }

  lemma ShortRest(ms: seq<Collect.Sendable>)
    requires AllShort(ms) && ms != []
    ensures Short(ms[0].payload) && AllShort(ms[1..])
  {
    assert forall i | 0 <= i < |ms[1..]| :: ms[1..][i] == ms[i + 1];
  }

  /** The stream of the messages, the first one apart. */
  lemma StreamFront(ms: seq<Collect.Sendable>)
    requires ms != []
    ensures Collect.StreamOf(ms) == Collect.Frames(ms[0].did, ms[0].payload) + Collect.StreamOf(ms[1..])
    ensures |Collect.Frames(ms[0].did, ms[0].payload)| == FrameCount(ms[0])
  {
    assert ms == [ms[0]] + ms[1..];
    Collect.StreamMore([ms[0]], ms[1..]);
    Collect.StreamOne(ms[0]);
  }

  lemma {:induction false} LossyAllPasses(ms: seq<Collect.Sendable>, keep: seq<bool>)
    requires AllShort(ms) && FirstsKept(ms, keep) && |keep| <= |Collect.StreamOf(ms)|
    ensures LossyStream(LossyAll(ms, keep)) == Passed(Collect.StreamOf(ms), keep)
    decreases |ms|
  {
    if ms != [] && keep != [] {
      var m, mine, others := ms[0], Mine(ms[0], keep), Others(ms[0], keep);
      ShortRest(ms);
      StreamFront(ms);
      LossyAllPasses(ms[1..], others);
      LossyOfPasses(m, mine);
      PassedSplit(Collect.Frames(m.did, m.payload), Collect.StreamOf(ms[1..]), keep);
      LossyStreamCons(LossyOf(m, mine), LossyAll(ms[1..], others));
    }
  }

  lemma LossyStreamCons(l: LegalLossy, ls: seq<LegalLossy>)
    ensures LossyStream([l] + ls) == LossyFrames(l) + LossyStream(ls)
    ensures Survivors([l] + ls) == l.Outcome() + Survivors(ls)
  {
    assert ([l] + ls)[1..] == ls;
  }

  lemma PassedSplit<T>(a: seq<T>, b: seq<T>, keep: seq<bool>)
    requires |keep| <= |a| + |b|
    ensures var n := Min(|a|, |keep|); Passed(a + b, keep) == Passed(a, keep[..n]) + Passed(b, keep[n..])
  {
    if |keep| <= |a| {
      PassedMore(a, b, keep);
      assert keep[..|keep|] == keep;
    } else {
      PassedConcat(a, b, keep[..|a|], keep[|a|..]);
      assert keep == keep[..|a|] + keep[|a|..];
    }
  }

  lemma {:induction false} LossyAllSurvive(ms: seq<Collect.Sendable>, keep: seq<bool>)
    requires AllShort(ms) && FirstsKept(ms, keep)
    ensures Survivors(LossyAll(ms, keep)) == Undamaged(ms, keep)
    decreases |ms|
  {
    if ms != [] {
      ShortRest(ms);
      if keep == [] {
        NothingTaken(ms);
      } else {
        LossyAllSurvive(ms[1..], Others(ms[0], keep));
        LossyOfPasses(ms[0], Mine(ms[0], keep));
        LossyStreamCons(LossyOf(ms[0], Mine(ms[0], keep)), LossyAll(ms[1..], Others(ms[0], keep)));
      }
    }
  }

  lemma {:induction false} NothingTaken(ms: seq<Collect.Sendable>)
    ensures Undamaged(ms, []) == []
    decreases |ms|
  {
    if ms != [] {
      NothingTaken(ms[1..]);
    }
  }

  /** The decisions of a run on the frames of one CAN-ID, in order. */
  function Decisions(evs: seq<Event>, id: int): seq<bool> {
    RunDecided(evs);
    DecisionsOn(Broadcast.Run(evs).enqueued, Fates(evs), id)
  }

  /** On any schedule and for any answers of the interface, if it drops no first frame on a
      dedicated CAN-ID and every message there has at most 15 continuation frames, a
      listener decodes exactly the messages all of whose frames went out, in firing order. */
  lemma LossyEndToEnd(evs: seq<Event>, id: int)
    requires Dedicated(evs, id) && AllShort(Fired(evs, id)) && FirstsKept(Fired(evs, id), Decisions(evs, id))
    ensures Collect.Decode(Collect.Listening, OnId(Broadcast.Run(evs).wire, id))
      == Undamaged(Fired(evs, id), Decisions(evs, id))
  {
    var ms, keep := Fired(evs, id), Decisions(evs, id);
    RunDecided(evs);
    PassedOnId(Broadcast.Run(evs).enqueued, Fates(evs), id);
    EnqueuedIsStream(evs, id);
    LossyAllPasses(ms, keep);
    LossyAllSurvive(ms, keep);
    LossyBroadcasts(Collect.Listening, LossyAll(ms, keep));
  }
}

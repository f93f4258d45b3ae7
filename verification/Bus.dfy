/** simulator/bus.py: the transmit queue and the retrying writer. What the kernel
    answers to each write is an argument. */
module Bus {
  import opened Bytes

  /** A frame together with its CAN-ID. */
  datatype Sent = Sent(id: int, data: Frame)

  /** The frames under one CAN-ID. */
  function OnId(tx: seq<Sent>, id: int): seq<Frame> {
    if tx == [] then []
    else
      var last := tx[|tx| - 1];
      OnId(tx[..|tx| - 1], id) + (if last.id == id then [last.data] else [])
  }

  function Tagged(id: int, fs: seq<Frame>): (r: seq<Sent>)
    ensures |r| == |fs| && forall i | 0 <= i < |fs| :: r[i] == Sent(id, fs[i])
  {
    seq(|fs|, i requires 0 <= i < |fs| => Sent(id, fs[i]))
  }

  lemma {:induction false} TaggedOnId(tx: seq<Sent>, id: int, fs: seq<Frame>)
    ensures OnId(tx + Tagged(id, fs), id) == OnId(tx, id) + fs
    ensures forall other | other != id :: OnId(tx + Tagged(id, fs), other) == OnId(tx, other)
  {
    if fs == [] {
      assert tx + Tagged(id, fs) == tx;
    } else {
      var n := |fs| - 1;
      var all := tx + Tagged(id, fs);
      assert all[..|all| - 1] == tx + Tagged(id, fs[..n]);
      TaggedOnId(tx, id, fs[..n]);
      assert fs == fs[..n] + [fs[n]];
    }
  }

  lemma {:induction false} OnIdConcat(a: seq<Sent>, b: seq<Sent>, id: int)
    ensures OnId(a + b, id) == OnId(a, id) + OnId(b, id)
  {
    if b == [] {
      assert a + b == a;
    } else {
      var n := |b| - 1;
      assert (a + b)[..|a + b| - 1] == a + b[..n];
      OnIdConcat(a, b[..n], id);
    }
  }

  // ----- One write, with retries ---------------------------------------------

  /** What a write to the interface ends in: success, ENOBUFS/EAGAIN, another error. */
  datatype Answer = Accepted | Busy | Fatal

  const RETRY_MAX: nat := 5
  const BACKOFF_MS: nat := 2

  /** The answers to the writes of one frame, should all of them be attempted. */
  type Answers = a: seq<Answer> | |a| == RETRY_MAX + 1
    witness [Accepted, Accepted, Accepted, Accepted, Accepted, Accepted]

  /** The frame goes out exactly if some write is accepted after busy ones only. */
  predicate GoesOut(a: Answers) {
    exists k | 0 <= k <= RETRY_MAX :: a[k] == Accepted && forall j | 0 <= j < k :: a[j] == Busy
  }

  /** Six writes at most, the next one only behind a busy one. */
  lemma GoesOutIff(a: Answers)
    ensures GoesOut(a) <==>
      || a[0] == Accepted
      || (a[0] == Busy && a[1] == Accepted)
      || (a[0] == Busy && a[1] == Busy && a[2] == Accepted)
      || (a[0] == Busy && a[1] == Busy && a[2] == Busy && a[3] == Accepted)
      || (a[0] == Busy && a[1] == Busy && a[2] == Busy && a[3] == Busy && a[4] == Accepted)
      || (a[0] == Busy && a[1] == Busy && a[2] == Busy && a[3] == Busy && a[4] == Busy && a[5] == Accepted)
  {
  }

  function Pow2(n: nat): nat { if n == 0 then 1 else 2 * Pow2(n - 1) }

  /** The queue, what has been written, and everything ever enqueued. */
  datatype BusState = BusState(queue: seq<Sent>, wire: seq<Sent>, enqueued: seq<Sent>)

  const EmptyBus := BusState([], [], [])

  function Enqueued(b: BusState, more: seq<Sent>): BusState {
    b.(queue := b.queue + more, enqueued := b.enqueued + more)
  }

  /** One turn of `_tx_loop`: the oldest frame is written or dropped. */
  function Turned(b: BusState, answers: Answers): BusState {
    if b.queue == [] then b
    else b.(queue := b.queue[1..], wire := b.wire + if GoesOut(answers) then [b.queue[0]] else [])
  }

  class CANBus {
    var txQueue: seq<Sent>
    var wire: seq<Sent>
    ghost var enqueued: seq<Sent>

    ghost function View(): BusState
      reads this
    {
      BusState(txQueue, wire, enqueued)
    }

    constructor ()
      ensures View() == EmptyBus
    {
      txQueue, wire, enqueued := [], [], [];
    }

    method Send(id: int, data: Frame)
      modifies this
      ensures View() == Enqueued(old(View()), [Sent(id, data)])
    {
      txQueue := txQueue + [Sent(id, data)];
      enqueued := enqueued + [Sent(id, data)];
    }

    /** Attempts and milliseconds slept are returned so that they can be bounded. */
    method SendWithRetry(msg: Sent, answers: Answers) returns (attempts: nat, slept: nat)
      modifies this`wire
      ensures wire == old(wire) + (if GoesOut(answers) then [msg] else [])
      ensures 1 <= attempts <= 6 && slept == [0, 2, 6, 14, 30, 62][attempts - 1]
      ensures forall j | 0 <= j < attempts - 1 :: answers[j] == Busy
      ensures answers[attempts - 1] == Busy ==> attempts == 6
    {
      var backoff := BACKOFF_MS;
      attempts, slept := 0, 0;
      while true
        invariant 0 <= attempts <= RETRY_MAX
        invariant backoff == BACKOFF_MS * Pow2(attempts)
        invariant slept == BACKOFF_MS * (Pow2(attempts) - 1)
        invariant forall j | 0 <= j < attempts :: answers[j] == Busy
        invariant wire == old(wire)
        decreases RETRY_MAX - attempts
      {
        var answer := answers[attempts];
        attempts := attempts + 1;
        Pow2Bound(attempts - 1);
        if answer == Accepted {
          assert answers[attempts - 1] == Accepted;
          wire := wire + [msg];
          return;
        }
        if answer == Fatal || attempts == RETRY_MAX + 1 {
          assert !GoesOut(answers);
          return;
        }
        slept := slept + backoff;
        backoff := backoff * 2;
      }
    }

    method TxTurn(answers: Answers)
      modifies this
      ensures View() == Turned(old(View()), answers)
    {
      if txQueue != [] {
        var msg := txQueue[0];
        txQueue := txQueue[1..];
        var attempts, slept := SendWithRetry(msg, answers);
      }
    }
  }

  /** Milliseconds slept before each of the six writes. */
  lemma Pow2Bound(n: nat)
    requires n <= RETRY_MAX
    ensures BACKOFF_MS * (Pow2(n) - 1) == [0, 2, 6, 14, 30, 62][n]
  {
    assert Pow2(0) == 1 && Pow2(1) == 2 && Pow2(2) == 4 && Pow2(3) == 8 && Pow2(4) == 16 && Pow2(5) == 32;
  }
}
